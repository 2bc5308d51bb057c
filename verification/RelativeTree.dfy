/** The trees of src/sample5/main.c: nodes in one array, each link the distance to the child
    and 0 for none, so that a block of nodes can be copied elsewhere as it is. */
module RelativeTree {
  import opened Basics

  datatype Node = Node(left: int, right: int, s: string)

  datatype Tree = Empty | Branch(s: string, left: Tree, right: Tree)

  datatype Side = Left | Right

  type Path = seq<Side>

  function Link(node: Node, side: Side): int {
    if side == Left then node.left else node.right
  }

  /** Links lead forward and stay in the array. */
  predicate Forward(nodes: seq<Node>) {
    nodes != [] &&
    forall i, side :: 0 <= i < |nodes| ==> 0 <= Link(nodes[i], side) < |nodes| - i
  }

  /** The child on one side, as `get_left` finds it. */
  function Child(nodes: seq<Node>, i: nat, side: Side): (child: Option<nat>)
    requires Forward(nodes) && i < |nodes|
    ensures child.Some? ==> i < child.value < |nodes|
  {
    if Link(nodes[i], side) == 0 then None else Some(i + Link(nodes[i], side))
  }

  function Decode(nodes: seq<Node>, i: nat): (t: Tree)
    requires Forward(nodes) && i < |nodes|
    ensures t != Empty
    decreases |nodes| - i
  {
    Branch(nodes[i].s, DecodeChild(nodes, i, Left), DecodeChild(nodes, i, Right))
  }

  function DecodeChild(nodes: seq<Node>, i: nat, side: Side): Tree
    requires Forward(nodes) && i < |nodes|
    decreases |nodes| - i, 0
  {
    var child := Child(nodes, i, side);
    if child == None then Empty else Decode(nodes, child.value)
  }

  /** The node that a path from node `i` leads to. */
  function At(nodes: seq<Node>, i: nat, path: Path): (end: Option<nat>)
    requires Forward(nodes) && i < |nodes|
    ensures end.Some? ==> i + |path| <= end.value < |nodes|
    decreases |path|
  {
    if path == [] then Some(i) else
    var child := Child(nodes, i, path[0]);
    if child == None then None else At(nodes, child.value, path[1..])
  }

  ghost function PathsTo(nodes: seq<Node>, i: nat, goal: nat): iset<Path>
    requires Forward(nodes) && i < |nodes|
  {
    iset path | At(nodes, i, path) == Some(goal)
  }

  /** From the root, at most one path leads to each node. */
  ghost predicate IsTree(nodes: seq<Node>)
    requires Forward(nodes)
  {
    forall p, q :: At(nodes, 0, p) == At(nodes, 0, q) && At(nodes, 0, p).Some? ==> p == q
  }

  // ----- Grafting -----

  /** What `concat_left` returns: both blocks and one new link. */
  function Graft(a: seq<Node>, b: seq<Node>, offset: nat): seq<Node>
    requires offset < |a|
  {
    (a + b)[offset := a[offset].(left := |a| - offset)]
  }

  method GetLeft(nodes: array<Node>, i: nat) returns (child: Option<nat>)
    requires Forward(nodes[..]) && i < nodes.Length
    ensures child == None <==> Decode(nodes[..], i).left == Empty
    ensures child.Some? ==> child.value < nodes.Length && Decode(nodes[..], i).left == Decode(nodes[..], child.value)
    ensures child == At(nodes[..], i, [Left])
    ensures child == if nodes[i].left == 0 then None else Some(i + nodes[i].left)
  {
    assert 0 <= Link(nodes[..][i], Left) < nodes.Length - i;
    if nodes[i].left == 0 {
      child := None;
    } else {
      child := Some(i + nodes[i].left);
      assert At(nodes[..], child.value, []) == child;
    }
    assert child == Child(nodes[..], i, Left);
    assert Decode(nodes[..], i).left == DecodeChild(nodes[..], i, Left);
  }

  method ConcatLeft(rootA: array<Node>, sizeA: nat, rootB: array<Node>, sizeB: nat, nodeA: nat)
    returns (res: array<Node>)
    requires sizeA <= rootA.Length && sizeB <= rootB.Length && nodeA < sizeA
    ensures fresh(res)
    ensures res[..] == Graft(rootA[..sizeA], rootB[..sizeB], nodeA)
    ensures res.Length == sizeA + sizeB
    ensures forall i :: 0 <= i < sizeA && i != nodeA ==> res[i] == rootA[i]
    ensures forall i :: 0 <= i < sizeB ==> res[sizeA + i] == rootB[i]
    ensures res[nodeA] == Node(sizeA - nodeA, rootA[nodeA].right, rootA[nodeA].s)
  {
    res := new Node[sizeA + sizeB](_ => Node(0, 0, ""));
    Memcpy(res, 0, rootA, 0, sizeA);
    Memcpy(res, sizeA, rootB, 0, sizeB);
    assert res[..] == rootA[..sizeA] + rootB[..sizeB];
    assert forall i :: 0 <= i < sizeB ==> res[sizeA + i] == rootB[i];
    res[nodeA] := res[nodeA].(left := sizeA - nodeA);
  }

  /** The program: a single node grafted below itself, and the text of its left child. */
  method Program() returns (text: string)
    ensures text == "abc"
  {
    var root := new Node[1](_ => Node(0, 0, "abc"));
    assert Forward(root[..]);
    var grafted := ConcatLeft(root, 1, root, 1, 0);
    GraftIsForward(root[..], root[..], 0);
    assert root[..1] == root[..];
    var child := GetLeft(grafted, 0);
    text := grafted[child.value].s;
  }

  // ----- Paths and walks -----

  ghost predicate Follows(nodes: seq<Node>, i: nat, side: Side, j: nat) {
    && i < |nodes| && j < |nodes|
    && var link := if side == Left then nodes[i].left else nodes[i].right;
       link != 0 && j == i + link
  }

  /** The indices `walk` follow the links along the path. */
  ghost predicate IsWalk(nodes: seq<Node>, path: Path, walk: seq<nat>) {
    && |walk| == |path| + 1 && walk[0] < |nodes|
    && forall k :: 0 <= k < |path| ==> Follows(nodes, walk[k], path[k], walk[k + 1])
  }

  lemma FirstStep(nodes: seq<Node>, i: nat, side: Side, j: nat)
    requires Forward(nodes) && i < |nodes|
    ensures Follows(nodes, i, side, j) <==> Child(nodes, i, side) == Some(j)
  {
    assert 0 <= Link(nodes[i], side) < |nodes| - i;
  }

  /** A path leads to a node exactly if a walk along the links does. */
  lemma {:induction false} AtIsWalk(nodes: seq<Node>, i: nat, path: Path) returns (walk: seq<nat>)
    requires Forward(nodes) && i < |nodes|
    ensures At(nodes, i, path).Some? ==>
              IsWalk(nodes, path, walk) && walk[0] == i && walk[|path|] == At(nodes, i, path).value
    decreases |path|
  {
    walk := [i];
    if path == [] {
    } else {
      hide Follows, Forward;
      var child := Child(nodes, i, path[0]);
      if child.Some? && At(nodes, child.value, path[1..]).Some? {
        FirstStep(nodes, i, path[0], child.value);
        var rest := AtIsWalk(nodes, child.value, path[1..]);
        walk := [i] + rest;
        forall k | 0 <= k < |path| ensures Follows(nodes, walk[k], path[k], walk[k + 1]) {
          if k > 0 {
            var j := k - 1;
            assert Follows(nodes, rest[j], path[1..][j], rest[j + 1]);
          }
        }
      }
    }
  }

  lemma {:induction false} WalkIsAt(nodes: seq<Node>, path: Path, walk: seq<nat>)
    requires Forward(nodes) && IsWalk(nodes, path, walk)
    ensures At(nodes, walk[0], path) == Some(walk[|path|])
    decreases |path|
  {
    if path == [] {
    } else {
      assert Follows(nodes, walk[0], path[0], walk[0 + 1]);
      FirstStep(nodes, walk[0], path[0], walk[1]);
      WalkTail(nodes, path, walk);
      WalkIsAt(nodes, path[1..], walk[1..]);
    }
  }

  lemma WalkTail(nodes: seq<Node>, path: Path, walk: seq<nat>)
    requires IsWalk(nodes, path, walk) && path != []
    ensures IsWalk(nodes, path[1..], walk[1..])
  {
    var p, w := path[1..], walk[1..];
    assert Follows(nodes, walk[0], path[0], walk[0 + 1]);
    hide Follows;
    forall k | 0 <= k < |p| ensures Follows(nodes, w[k], p[k], w[k + 1]) {
      var j := k + 1;
      assert Follows(nodes, walk[j], path[j], walk[j + 1]);
    }
    assert w[0] == walk[1];
  }

  // ----- Links and paths of the grafted array -----

  lemma GraftIsForward(a: seq<Node>, b: seq<Node>, offset: nat)
    requires Forward(a) && Forward(b) && offset < |a|
    ensures Forward(Graft(a, b, offset))
  {
    var g := Graft(a, b, offset);
    forall i, side | 0 <= i < |g|
      ensures 0 <= Link(g[i], side) < |g| - i
    {
      if i < |a| {
        assert 0 <= Link(a[i], side) < |a| - i;
      } else {
        assert 0 <= Link(b[i - |a|], side) < |b| - (i - |a|);
      }
    }
  }

  /** An empty second block leaves the new link pointing past the end. */
  lemma GraftFitsIff(a: seq<Node>, b: seq<Node>, offset: nat)
    requires Forward(a) && (b == [] || Forward(b)) && offset < |a|
    ensures Forward(Graft(a, b, offset)) <==> b != []
  {
    if b != [] {
      GraftIsForward(a, b, offset);
    } else {
      assert Link(Graft(a, b, offset)[offset], Left) == |a| - offset;
    }
  }

  /** The second block is read wherever it is copied to. */
  lemma {:induction false} BlockIsRelocated(a: seq<Node>, b: seq<Node>, offset: nat, j: nat)
    requires Forward(a) && Forward(b) && offset < |a| && j < |b|
    ensures Forward(Graft(a, b, offset))
    ensures Decode(Graft(a, b, offset), |a| + j) == Decode(b, j)
    decreases |b| - j
  {
    GraftIsForward(a, b, offset);
    if Child(b, j, Left).Some? {
      BlockIsRelocated(a, b, offset, Child(b, j, Left).value);
    }
    if Child(b, j, Right).Some? {
      BlockIsRelocated(a, b, offset, Child(b, j, Right).value);
    }
  }

  /** `t` with `b` as the left subtree of every node that one of the paths leads to. */
  ghost function ReplaceLeft(t: Tree, at: iset<Path>, b: Tree): Tree {
    if t == Empty then Empty else
    Branch(t.s,
           if [] in at then b else ReplaceLeft(t.left, After(at, Left), b),
           ReplaceLeft(t.right, After(at, Right), b))
  }

  ghost function After(at: iset<Path>, side: Side): iset<Path> {
    iset path | [side] + path in at
  }

  /** The grafted array means the first tree, with the second as the left subtree of the
      chosen node wherever that node occurs, and nothing else changed. */
  lemma {:induction false} GraftReplaces(a: seq<Node>, b: seq<Node>, offset: nat, i: nat)
    requires Forward(a) && Forward(b) && offset < |a| && i < |a|
    ensures Forward(Graft(a, b, offset))
    ensures Decode(Graft(a, b, offset), i) == ReplaceLeft(Decode(a, i), PathsTo(a, i, offset), Decode(b, 0))
    decreases |a| - i
  {
    GraftIsForward(a, b, offset);
    var g, at := Graft(a, b, offset), PathsTo(a, i, offset);
    assert [] in at <==> i == offset;
    if i == offset {
      BlockIsRelocated(a, b, offset, 0);
      assert DecodeChild(g, i, Left) == Decode(b, 0);
    } else {
      GraftReplacesChild(a, b, offset, i, Left);
    }
    GraftReplacesChild(a, b, offset, i, Right);
  }

  lemma {:induction false} GraftReplacesChild(a: seq<Node>, b: seq<Node>, offset: nat, i: nat, side: Side)
    requires Forward(a) && Forward(b) && offset < |a| && i < |a| && (i == offset ==> side == Right)
    ensures Forward(Graft(a, b, offset))
    ensures DecodeChild(Graft(a, b, offset), i, side)
         == ReplaceLeft(DecodeChild(a, i, side), After(PathsTo(a, i, offset), side), Decode(b, 0))
    decreases |a| - i, 0
  {
    GraftIsForward(a, b, offset);
    var child := Child(a, i, side);
    assert Child(Graft(a, b, offset), i, side) == child;
    if child.Some? {
      GraftReplaces(a, b, offset, child.value);
      forall path: Path
        ensures path in After(PathsTo(a, i, offset), side) <==> path in PathsTo(a, child.value, offset)
      {
        assert ([side] + path)[1..] == path;
      }
      assert After(PathsTo(a, i, offset), side) == PathsTo(a, child.value, offset);
    }
  }

  // ----- Trees stay trees -----

  /** `t` with `b` as the left subtree of the node at `path`. */
  function ReplaceAt(t: Tree, path: Path, b: Tree): Tree {
    if t == Empty then Empty
    else if path == [] then t.(left := b)
    else if path[0] == Left then t.(left := ReplaceAt(t.left, path[1..], b))
    else t.(right := ReplaceAt(t.right, path[1..], b))
  }

  /** What is written at the node that the path leads to. */
  function Label(t: Tree, path: Path): Option<string> {
    if t == Empty then None
    else if path == [] then Some(t.s)
    else Label(if path[0] == Left then t.left else t.right, path[1..])
  }

  /** The tree has, at every path, the text of the node that the path leads to. */
  lemma {:induction false} LabelsAreTexts(nodes: seq<Node>, i: nat, path: Path)
    requires Forward(nodes) && i < |nodes|
    ensures var end := At(nodes, i, path);
            Label(Decode(nodes, i), path) == if end == None then None else Some(nodes[end.value].s)
    decreases |path|
  {
    if path == [] {
    } else {
      var child := Child(nodes, i, path[0]);
      if child.Some? {
        LabelsAreTexts(nodes, child.value, path[1..]);
      }
    }
  }

  /** Everything below the new link comes from `b`, everything else is where it was. */
  lemma {:induction false} ReplacedLabels(t: Tree, path: Path, b: Tree, q: Path)
    requires Label(t, path).Some?
    ensures Label(ReplaceAt(t, path, b), q)
         == if path + [Left] <= q then Label(b, q[|path| + 1..]) else Label(t, q)
    decreases |path|
  {
    if path != [] && q != [] && path[0] == q[0] {
      ReplacedLabels(if path[0] == Left then t.left else t.right, path[1..], b, q[1..]);
      assert path + [Left] == [path[0]] + (path[1..] + [Left]);
      assert q == [q[0]] + q[1..];
      PrefixTail(path[0], path[1..] + [Left], q[1..]);
    }
  }

  lemma PrefixTail(side: Side, p: Path, q: Path)
    ensures [side] + p <= [side] + q <==> p <= q
  {
    var p', q' := [side] + p, [side] + q;
    assert forall i :: 0 <= i < |p| ==> p'[i + 1] == p[i];
    assert forall i :: 0 <= i < |q| ==> q'[i + 1] == q[i];
    if p' <= q' {
      forall i | 0 <= i < |p| ensures p[i] == q[i] {
        assert p'[i + 1] == q'[i + 1];
      }
    }
  }

  lemma {:induction false} NoPathNoChange(t: Tree, b: Tree)
    ensures ReplaceLeft(t, iset{}, b) == t
  {
    if t == Empty {
    } else {
      assert forall side :: After(iset{}, side) == iset{};
      NoPathNoChange(t.left, b);
      NoPathNoChange(t.right, b);
    }
  }

  lemma {:induction false} OnePathOneChange(t: Tree, path: Path, b: Tree)
    ensures ReplaceLeft(t, iset{path}, b) == ReplaceAt(t, path, b)
  {
    if t == Empty {
    } else {
      if path == [] {
        assert After(iset{path}, Right) == iset{};
        NoPathNoChange(t.right, b);
      } else {
        var side, rest := path[0], path[1..];
        assert path == [side] + rest;
        forall p ensures p in After(iset{path}, side) <==> p == rest {
          assert ([side] + p)[1..] == p;
        }
        assert After(iset{path}, side) == iset{rest};
        var other := if side == Left then Right else Left;
        assert After(iset{path}, other) == iset{};
        OnePathOneChange(if side == Left then t.left else t.right, rest, b);
        NoPathNoChange(if side == Left then t.right else t.left, b);
      }
    }
  }

  /** Grafting below a node of a tree replaces one subtree; below a node that the root does
      not lead to, it changes nothing. */
  lemma GraftOnTree(a: seq<Node>, b: seq<Node>, offset: nat, path: Path)
    requires Forward(a) && Forward(b) && offset < |a| && IsTree(a)
    ensures Forward(Graft(a, b, offset))
    ensures At(a, 0, path) == Some(offset) ==>
              Decode(Graft(a, b, offset), 0) == ReplaceAt(Decode(a, 0), path, Decode(b, 0))
    ensures PathsTo(a, 0, offset) == iset{} ==> Decode(Graft(a, b, offset), 0) == Decode(a, 0)
  {
    GraftReplaces(a, b, offset, 0);
    var at := PathsTo(a, 0, offset);
    if at == iset{} {
      NoPathNoChange(Decode(a, 0), Decode(b, 0));
    }
    if At(a, 0, path) == Some(offset) {
      assert at == iset{path};
      OnePathOneChange(Decode(a, 0), path, Decode(b, 0));
    }
  }

  lemma {:induction false} PathInBlock(a: seq<Node>, b: seq<Node>, offset: nat, j: nat, path: Path)
    requires Forward(a) && Forward(b) && offset < |a| && j < |b|
    ensures Forward(Graft(a, b, offset))
    ensures var end := At(b, j, path);
            At(Graft(a, b, offset), |a| + j, path) == if end == None then None else Some(|a| + end.value)
    decreases |path|
  {
    GraftIsForward(a, b, offset);
    if path != [] && Child(b, j, path[0]).Some? {
      PathInBlock(a, b, offset, Child(b, j, path[0]).value, path[1..]);
    }
  }

  lemma PathStep(nodes: seq<Node>, i: nat, side: Side, rest: Path)
    requires Forward(nodes) && i < |nodes|
    ensures var child := Child(nodes, i, side);
            At(nodes, i, [side] + rest) == if child == None then None else At(nodes, child.value, rest)
  {
    assert ([side] + rest)[1..] == rest;
  }

  /** The path goes to `offset` in the first block, over the new link, and on in the second. */
  ghost predicate Crosses(a: seq<Node>, b: seq<Node>, offset: nat, i: nat, path: Path, end: nat,
                          before: Path, rest: Path)
    requires Forward(a) && Forward(b) && i < |a| <= end
  {
    && path == before + [Left] + rest
    && At(a, i, before) == Some(offset) && At(b, 0, rest) == Some(end - |a|)
  }

  lemma CrossingHere(a: seq<Node>, b: seq<Node>, offset: nat, rest: Path)
    requires Forward(a) && Forward(b) && offset < |a|
    ensures At(b, 0, rest).Some? ==>
              Crosses(a, b, offset, offset, [Left] + rest, |a| + At(b, 0, rest).value, [], rest)
  {
    assert [] + [Left] + rest == [Left] + rest;
  }

  lemma CrossingStep(a: seq<Node>, b: seq<Node>, offset: nat, i: nat, side: Side, tail: Path, end: nat,
                     before: Path, rest: Path)
    requires Forward(a) && Forward(b) && i < |a| <= end && Child(a, i, side).Some?
    requires Crosses(a, b, offset, Child(a, i, side).value, tail, end, before, rest)
    ensures Crosses(a, b, offset, i, [side] + tail, end, [side] + before, rest)
  {
    hide At, Forward;
    PathStep(a, i, side, before);
    assert [side] + (before + [Left] + rest) == [side] + before + [Left] + rest;
  }

  /** A path in the grafted array stays in the first block, or crosses the new link once. */
  lemma {:induction false} PathSplits(a: seq<Node>, b: seq<Node>, offset: nat, i: nat, path: Path)
    returns (before: Path, rest: Path)
    requires Forward(a) && Forward(b) && offset < |a| && i < |a|
    ensures Forward(Graft(a, b, offset))
    ensures var end := At(Graft(a, b, offset), i, path);
            end.Some? ==>
              if end.value < |a| then At(a, i, path) == end
              else Crosses(a, b, offset, i, path, end.value, before, rest)
    decreases |path|
  {
    GraftIsForward(a, b, offset);
    before, rest := [], [];
    if path == [] {
    } else {
      hide At, Forward, Crosses;
      var side, tail := path[0], path[1..];
      assert path == [side] + tail;
      PathStep(Graft(a, b, offset), i, side, tail);
      if i == offset && side == Left {
        rest := tail;
        PathInBlock(a, b, offset, 0, rest);
        CrossingHere(a, b, offset, rest);
      } else {
        var child := Child(a, i, side);
        assert Child(Graft(a, b, offset), i, side) == child;
        if child.Some? {
          before, rest := PathSplits(a, b, offset, child.value, tail);
          PathStep(a, i, side, tail);
          var end := At(Graft(a, b, offset), i, path);
          if end.Some? && end.value >= |a| {
            CrossingStep(a, b, offset, i, side, tail, end.value, before, rest);
            before := [side] + before;
          }
        }
      }
    }
  }

  /** Grafting keeps every node under one parent, however often it is repeated. */
  lemma GraftIsTree(a: seq<Node>, b: seq<Node>, offset: nat)
    requires Forward(a) && Forward(b) && offset < |a| && IsTree(a) && IsTree(b)
    ensures Forward(Graft(a, b, offset)) && IsTree(Graft(a, b, offset))
  {
    GraftIsForward(a, b, offset);
    var g := Graft(a, b, offset);
    forall p, q | At(g, 0, p) == At(g, 0, q) && At(g, 0, p).Some?
      ensures p == q
    {
      var p0, p1 := PathSplits(a, b, offset, 0, p);
      var q0, q1 := PathSplits(a, b, offset, 0, q);
    }
  }

  /** The arrays that single nodes and `concat_left` make. */
  datatype Plan = Single(s: string) | Concat(a: Plan, b: Plan, offset: nat)

  function Size(plan: Plan): (n: nat)
    ensures n > 0
  {
    if plan.Single? then 1 else Size(plan.a) + Size(plan.b)
  }

  predicate InRange(plan: Plan) {
    plan.Single? || (InRange(plan.a) && InRange(plan.b) && plan.offset < Size(plan.a))
  }

  function Build(plan: Plan): (nodes: seq<Node>)
    requires InRange(plan)
    ensures |nodes| == Size(plan)
  {
    if plan.Single? then [Node(0, 0, plan.s)] else Graft(Build(plan.a), Build(plan.b), plan.offset)
  }

  lemma {:induction false} BuiltIsTree(plan: Plan)
    requires InRange(plan)
    ensures Forward(Build(plan)) && IsTree(Build(plan))
  {
    if plan.Concat? {
      BuiltIsTree(plan.a);
      BuiltIsTree(plan.b);
      GraftIsTree(Build(plan.a), Build(plan.b), plan.offset);
    }
  }
}
