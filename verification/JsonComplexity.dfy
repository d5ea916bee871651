/** The complexity limit on JSON request bodies, checked with an explicit stack. */
module JsonComplexity {
  import opened Json

  const MAX_JSON_DEPTH := 64
  const MAX_JSON_NODES := 50_000

  /** Elements of an array, values of an object, nothing for anything else. */
  function Children(v: Json): seq<Json> {
    match v
    case Arr(items) => items
    case Obj(fields) => seq(|fields|, i requires 0 <= i < |fields| => fields[i].value)
    case _ => []
  }

  function Sum(ns: seq<nat>): nat {
    if ns == [] then 0 else Sum(ns[..|ns| - 1]) + ns[|ns| - 1]
  }

  function Max(ns: seq<nat>): (m: nat)
    ensures forall i :: 0 <= i < |ns| ==> ns[i] <= m
    ensures m > 0 ==> m in ns
  {
    if ns == [] then 0
    else
      var m := Max(ns[..|ns| - 1]);
      if ns[|ns| - 1] > m then ns[|ns| - 1] else m
  }

  /** All values in the tree, the root included. */
  function Nodes(v: Json): nat {
    match v
    case Arr(items) => 1 + Sum(seq(|items|, i requires 0 <= i < |items| => Nodes(items[i])))
    case Obj(fields) => 1 + Sum(seq(|fields|, i requires 0 <= i < |fields| => Nodes(fields[i].value)))
    case _ => 1
  }

  /** Values on the longest path from the root, the root included. */
  function Depth(v: Json): nat {
    match v
    case Arr(items) => 1 + Max(seq(|items|, i requires 0 <= i < |items| => Depth(items[i])))
    case Obj(fields) => 1 + Max(seq(|fields|, i requires 0 <= i < |fields| => Depth(fields[i].value)))
    case _ => 1
  }

  function NodesOf(vs: seq<Json>): (r: seq<nat>)
    ensures |r| == |vs| && forall i :: 0 <= i < |vs| ==> r[i] == Nodes(vs[i])
  {
    seq(|vs|, i requires 0 <= i < |vs| => Nodes(vs[i]))
  }

  function DepthsOf(vs: seq<Json>): (r: seq<nat>)
    ensures |r| == |vs| && forall i :: 0 <= i < |vs| ==> r[i] == Depth(vs[i])
  {
    seq(|vs|, i requires 0 <= i < |vs| => Depth(vs[i]))
  }

  lemma ByChildren(v: Json)
    ensures Nodes(v) == 1 + Sum(NodesOf(Children(v)))
    ensures Depth(v) == 1 + Max(DepthsOf(Children(v)))
  {
    match v
    case Arr(items) =>
      assert NodesOf(items) == seq(|items|, i requires 0 <= i < |items| => Nodes(items[i]));
      assert DepthsOf(items) == seq(|items|, i requires 0 <= i < |items| => Depth(items[i]));
    case Obj(fields) =>
      assert NodesOf(Children(v)) == seq(|fields|, i requires 0 <= i < |fields| => Nodes(fields[i].value));
      assert DepthsOf(Children(v)) == seq(|fields|, i requires 0 <= i < |fields| => Depth(fields[i].value));
    case _ =>
  }

  // ----- the stack

  datatype Item = Item(depth: nat, value: Json)

  function StackNodes(stack: seq<Item>): nat {
    if stack == [] then 0 else StackNodes(stack[..|stack| - 1]) + Nodes(stack[|stack| - 1].value)
  }

  /** Everything below the stacked values stays within the depth limit. */
  ghost predicate Fits(stack: seq<Item>) {
    forall i :: 0 <= i < |stack| ==> FitsItem(stack[i])
  }

  ghost predicate FitsItem(x: Item) { x.depth + Depth(x.value) - 1 <= MAX_JSON_DEPTH }

  lemma PopItem(x: Item)
    ensures FitsItem(x) <==>
              x.depth <= MAX_JSON_DEPTH
              && forall i :: 0 <= i < |Children(x.value)| ==> FitsItem(Item(x.depth + 1, Children(x.value)[i]))
  {
    ByChildren(x.value);
    hide Depth, Children;
    var vs := Children(x.value);
    var m := Max(DepthsOf(vs));
    if m > 0 {
      var i :| 0 <= i < |vs| && DepthsOf(vs)[i] == m;
      assert FitsItem(Item(x.depth + 1, vs[i])) <==> x.depth + m <= MAX_JSON_DEPTH;
    }
    forall i | 0 <= i < |vs| ensures Depth(vs[i]) <= m {
      assert DepthsOf(vs)[i] == Depth(vs[i]);
    }
  }

  /** The check accepts exactly the trees within both limits, whatever order the stack visits them in. */
  method AssertJsonComplexity(value: Json) returns (accepted: bool)
    ensures accepted <==> Nodes(value) <= 50_000 && Depth(value) <= 64
  {
    hide Nodes, Depth, Children;
    var stack := [Item(1, value)];
    var nodes := 0;
    assert StackNodes(stack[..0]) == 0;
    assert Fits(stack) <==> FitsItem(stack[0]);
    while stack != []
      invariant nodes + StackNodes(stack) == Nodes(value)
      invariant nodes <= MAX_JSON_NODES
      invariant Fits(stack) <==> Depth(value) <= MAX_JSON_DEPTH
      decreases StackNodes(stack)
    {
      var current := stack[|stack| - 1];
      ghost var whole := stack;
      stack := stack[..|stack| - 1];
      ghost var rest := stack;
      nodes := nodes + 1;
      ByChildren(current.value);
      PopItem(current);
      assert Fits(whole) <==> Fits(rest) && FitsItem(current) by { FitsSplit(whole); }
      if nodes > MAX_JSON_NODES || current.depth > MAX_JSON_DEPTH {
        return false;
      }
      var children := Children(current.value);
      for i := 0 to |children|
        invariant StackNodes(stack) == StackNodes(rest) + Sum(NodesOf(children)[..i])
        invariant Fits(stack) <==> Fits(rest) && forall j :: 0 <= j < i ==> FitsItem(Item(current.depth + 1, children[j]))
      {
        ghost var before := stack;
        stack := stack + [Item(current.depth + 1, children[i])];
        assert stack[..|stack| - 1] == before;
        FitsSplit(stack);
        assert NodesOf(children)[..i + 1][..i] == NodesOf(children)[..i];
      }
      assert NodesOf(children)[..|children|] == NodesOf(children);
    }
    return true;
  }

  lemma FitsSplit(stack: seq<Item>)
    requires stack != []
    ensures Fits(stack) <==> Fits(stack[..|stack| - 1]) && FitsItem(stack[|stack| - 1])
  {
    var n := |stack| - 1;
    assert forall i :: 0 <= i < n ==> stack[..n][i] == stack[i];
  }
}
