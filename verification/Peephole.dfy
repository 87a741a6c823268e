/**
 The strength reduction of src/compiler/analysis/peephole.c on the nodes of an expression graph.
 Nodes are rewritten in place and may be shared; values are unsigned 64-bit words.
 */
module Peephole {
  import opened Arithmetic

  const U64: nat := 0x1_0000_0000_0000_0000

  type Word = x: int | 0 <= x < U64

  // ----- The test for a power of two

  /** Bitwise and. */
  function And(a: nat, b: nat): nat {
    if a == 0 || b == 0 then 0
    else 2 * And(a / 2, b / 2) + if a % 2 == 1 && b % 2 == 1 then 1 else 0
  }

  ghost predicate PowerOfTwo(v: nat) { exists k: nat :: v == Pow2(k) }

  lemma {:induction false} AndSame(a: nat)
    ensures And(a, a) == a
  {
    if a != 0 {
      AndSame(a / 2);
    }
  }

  lemma DoublePower(v: nat)
    requires v > 0
    ensures PowerOfTwo(2 * v) <==> PowerOfTwo(v)
    ensures !PowerOfTwo(2 * v + 1)
  {
    if k: nat :| v == Pow2(k) {
      assert 2 * v == Pow2(k + 1);
    }
    if k: nat :| 2 * v == Pow2(k) {
      assert v == Pow2(k - 1);
    }
    forall k: nat
      ensures Pow2(k) != 2 * v + 1
    {
      assert k > 0 ==> Pow2(k) == 2 * Pow2(k - 1);
    }
  }

  /** The usual trick: a number shares no bit with its predecessor exactly if it is zero or a power of two. */
  lemma {:induction false} AndPredecessorIff(v: nat)
    requires v > 0
    ensures And(v, v - 1) == 0 <==> PowerOfTwo(v)
  {
    if v == 1 {
      assert v == Pow2(0);
    } else {
      DoublePower(v / 2);
      if v % 2 == 1 {
        AndSame(v / 2);
        assert (v - 1) / 2 == v / 2;
      } else {
        AndPredecessorIff(v / 2);
        assert (v - 1) / 2 == v / 2 - 1;
      }
    }
  }

  lemma HalfTwice(v: nat, k: nat)
    requires v % 2 == 0
    ensures v * Pow2(k) == (v / 2) * Pow2(k + 1)
  {
    var h, x := v / 2, Pow2(k);
    assert v == 2 * h && Pow2(k + 1) == 2 * x;
    assert (2 * h) * x == h * (2 * x);
  }

  /** The trailing zeros of a power of two are its exponent. */
  method CountTrailingZeros(value: Word) returns (count: nat)
    requires value != 0
    ensures exists odd: nat :: odd % 2 == 1 && value == odd * Pow2(count)
    ensures PowerOfTwo(value) ==> value == Pow2(count) && count < 64
  {
    var v := value;
    count := 0;
    while v % 2 == 0
      invariant 0 < v <= value && value == v * Pow2(count)
      invariant PowerOfTwo(v) <==> PowerOfTwo(value)
      decreases v
    {
      DoublePower(v / 2);
      HalfTwice(v, count);
      v, count := v / 2, count + 1;
    }
    if v > 1 {
      DoublePower(v / 2);
    }
    ExponentBelow(value, count);
  }

  lemma ExponentBelow(value: Word, k: nat)
    ensures value == Pow2(k) ==> k < 64
  {
    if 64 <= k {
      Pow2Adds(64, k - 64);
      Pow2Values();
      assert Pow2(k) >= U64;
    }
  }

  // ----- Shifts

  /** A shift to the left, bit by bit; what leaves the word is lost. */
  function ShiftLeft(a: Word, k: nat): Word
    decreases k
  {
    if k == 0 then a else ShiftLeft(2 * a % U64, k - 1)
  }

  function ShiftRight(a: Word, k: nat): Word
    decreases k
  {
    if k == 0 then a else ShiftRight(a / 2, k - 1)
  }

  lemma {:induction false} ShiftLeftMultiplies(a: Word, k: nat)
    ensures ShiftLeft(a, k) == a * Pow2(k) % U64
    decreases k
  {
    if k > 0 {
      var b := 2 * a % U64;
      ShiftLeftMultiplies(b, k - 1);
      ProductModulo(2 * a, Pow2(k - 1), U64);
      assert (2 * a) * Pow2(k - 1) == a * Pow2(k);
    }
  }

  lemma ProductModulo(x: nat, y: nat, n: nat)
    requires 0 < n
    ensures (x % n) * y % n == x * y % n
  {
    var q := x / n;
    assert x * y == (x % n) * y + (q * y) * n;
    ModuloAdds((x % n) * y, q * y, n);
  }

  lemma {:induction false} ModuloAdds(x: nat, q: nat, n: nat)
    requires 0 < n
    ensures (x + q * n) % n == x % n
  {
    var r, d := x % n, x / n;
    assert x + q * n == (d + q) * n + r;
    DivModUnique(x + q * n, n, d + q, r);
  }

  lemma {:induction false} ShiftRightDivides(a: Word, k: nat)
    ensures ShiftRight(a, k) == a / Pow2(k)
    decreases k
  {
    if k > 0 {
      ShiftRightDivides(a / 2, k - 1);
      HalvesThenDivides(a, Pow2(k - 1));
    }
  }

  lemma HalvesThenDivides(a: nat, n: nat)
    requires 0 < n
    ensures a / 2 / n == a / (2 * n)
  {
    var h := a / 2;
    var q, r := h / n, h % n;
    assert a == q * (2 * n) + (2 * r + a % 2);
    DivModUnique(a, 2 * n, q, 2 * r + a % 2);
  }

  // ----- The expression graph

  datatype Kind = IntegerLiteral | BinaryExpr | Other

  datatype Op = Add | Sub | Mul | Div | Mod | BitAnd | BitOr | BitXor | Not | Shl | Shr | Eq | Neq | Lt | Gt | Le | Ge

  /** The fields of a node; `name` is what a node of another kind stands for. */
  datatype Content = Content(kind: Kind, value: Word, name: string, op: Op, left: Node?, right: Node?) {
    predicate Heavy() { kind == BinaryExpr && (op == Mul || op == Div) }
  }

  /** What the nodes of a graph hold at one moment. */
  type Graph = map<Node, Content>

  /**
   What the rest of the program gives: the values of other nodes, the operations that the
   rewriting does not touch, and the results that C leaves undefined.
   */
  datatype Meaning = Meaning(leaf: string -> Word, other: (Op, Word, Word) -> Word)

  function Apply(m: Meaning, op: Op, a: Word, b: Word): Word {
    if op == Mul then a * b % U64
    else if op == Div && b != 0 then a / b
    else if op == Shl && b < 64 then ShiftLeft(a, b)
    else if op == Shr && b < 64 then ShiftRight(a, b)
    else m.other(op, a, b)
  }

  /** Operands lie in the graph and rank below their node, so the graph has no cycle. */
  ghost predicate Acyclic(g: Graph, rank: map<Node, nat>) {
    forall n :: n in g ==> n in rank && Below(n, g[n].left, g, rank) && Below(n, g[n].right, g, rank)
  }

  ghost predicate Below(n: Node, operand: Node?, g: Graph, rank: map<Node, nat>) {
    operand != null ==> operand in g && n in rank && operand in rank && rank[operand] < rank[n]
  }

  /** The value of a node. A missing operand counts as 0. */
  ghost function Eval(n: Node, g: Graph, rank: map<Node, nat>, m: Meaning): Word
    requires n in g && Acyclic(g, rank)
    decreases rank[n]
  {
    if g[n].kind == IntegerLiteral then g[n].value
    else if g[n].kind == BinaryExpr then
      var left := if g[n].left == null then 0 else Eval(g[n].left, g, rank, m);
      var right := if g[n].right == null then 0 else Eval(g[n].right, g, rank, m);
      Apply(m, g[n].op, left, right)
    else m.leaf(g[n].name)
  }

  // ----- The rewriting

  /** A multiplication or division by the literal `2^k`. */
  ghost predicate Reducible(g: Graph, n: Node, k: nat) {
    && n in g && g[n].Heavy() && g[n].right != null && g[n].right in g
    && g[g[n].right].kind == IntegerLiteral && g[g[n].right].value == Pow2(k)
  }

  ghost function Rewritten(g: Graph, n: Node, constant: Node, k: Word): Graph
    requires n in g
  {
    g[n := g[n].(op := if g[n].op == Mul then Shl else Shr, right := constant)]
     [constant := Content(IntegerLiteral, k, "", Add, null, null)]
  }

  /** A shift by the exponent gives what the multiplication or division gave. */
  lemma ShiftReplaces(m: Meaning, a: Word, k: nat)
    requires k < 64 && Pow2(k) < U64
    ensures Apply(m, Shl, a, k) == Apply(m, Mul, a, Pow2(k))
    ensures Apply(m, Shr, a, k) == Apply(m, Div, a, Pow2(k))
  {
    ShiftLeftMultiplies(a, k);
    ShiftRightDivides(a, k);
  }

  /** The new constant is a leaf, so the graph stays free of cycles. */
  lemma RewrittenAcyclic(g: Graph, rank: map<Node, nat>, n: Node, constant: Node, k: Word)
    requires Acyclic(g, rank) && Reducible(g, n, k) && constant !in g
    ensures Acyclic(Rewritten(g, n, constant, k), rank[constant := 0])
  {
    var g', rank' := Rewritten(g, n, constant, k), rank[constant := 0];
    forall x | x in g'
      ensures x in rank' && Below(x, g'[x].left, g', rank') && Below(x, g'[x].right, g', rank')
    {
      if x in g {
        assert Below(x, g[x].left, g, rank) && Below(x, g[x].right, g, rank);
      }
    }
  }

  /** Every node of the graph, however many expressions share it, keeps its value in every meaning. */
  lemma {:induction false} RewritingKeepsValues(g: Graph, rank: map<Node, nat>, n: Node, constant: Node, k: Word,
                                                x: Node, m: Meaning)
    requires Acyclic(g, rank) && Reducible(g, n, k) && constant !in g && x in g
    ensures Acyclic(Rewritten(g, n, constant, k), rank[constant := 0])
    ensures Eval(x, Rewritten(g, n, constant, k), rank[constant := 0], m) == Eval(x, g, rank, m)
    decreases rank[x]
  {
    RewrittenAcyclic(g, rank, n, constant, k);
    var left, right := g[x].left, g[x].right;
    assert Below(x, left, g, rank) && Below(x, right, g, rank);
    if left != null {
      RewritingKeepsValues(g, rank, n, constant, k, left, m);
    }
    if right != null {
      RewritingKeepsValues(g, rank, n, constant, k, right, m);
    }
    if x == n {
      ExponentBelow(g[right].value, k);
      ShiftReplaces(m, if left == null then 0 else Eval(left, g, rank, m), k);
    }
  }

  ghost function HeavyNodes(g: Graph): set<Node> {
    set n | n in g && g[n].Heavy()
  }

  /** One multiplication or division less. */
  lemma RewritingRemovesHeavy(g: Graph, n: Node, constant: Node, k: Word)
    requires Reducible(g, n, k) && constant !in g
    ensures n in HeavyNodes(g) && HeavyNodes(Rewritten(g, n, constant, k)) == HeavyNodes(g) - {n}
    ensures |HeavyNodes(Rewritten(g, n, constant, k))| == |HeavyNodes(g)| - 1
  {
    assert HeavyNodes(Rewritten(g, n, constant, k)) == HeavyNodes(g) - {n};
  }

  // ----- Any number of rewritings

  datatype Step = Step(n: Node, constant: Node, k: Word)

  ghost predicate Possible(g: Graph, steps: seq<Step>)
    decreases |steps|, 0
  {
    steps == [] ||
    var before, last := steps[..|steps| - 1], steps[|steps| - 1];
    Possible(g, before) && Reducible(Final(g, before), last.n, last.k) && last.constant !in Final(g, before)
  }

  ghost function Final(g: Graph, steps: seq<Step>): Graph
    requires Possible(g, steps)
    decreases |steps|, 1
  {
    if steps == [] then g
    else
      var before, last := steps[..|steps| - 1], steps[|steps| - 1];
      Rewritten(Final(g, before), last.n, last.constant, last.k)
  }

  ghost function FinalRank(rank: map<Node, nat>, steps: seq<Step>): map<Node, nat> {
    if steps == [] then rank else FinalRank(rank, steps[..|steps| - 1])[steps[|steps| - 1].constant := 0]
  }

  /**
   Rewriting, in any order and at any nodes, stops after as many steps as there are
   multiplications and divisions, and no step changes the value of any node.
   */
  lemma {:induction false} RewritingEndsAndKeepsValues(g: Graph, rank: map<Node, nat>, steps: seq<Step>, x: Node,
                                                       m: Meaning)
    requires Acyclic(g, rank) && Possible(g, steps) && x in g
    ensures |HeavyNodes(Final(g, steps))| == |HeavyNodes(g)| - |steps|
    ensures Acyclic(Final(g, steps), FinalRank(rank, steps)) && x in Final(g, steps)
    ensures Eval(x, Final(g, steps), FinalRank(rank, steps), m) == Eval(x, g, rank, m)
    decreases |steps|
  {
    if steps != [] {
      var before, last := steps[..|steps| - 1], steps[|steps| - 1];
      RewritingEndsAndKeepsValues(g, rank, before, x, m);
      RewritingRemovesHeavy(Final(g, before), last.n, last.constant, last.k);
      RewritingKeepsValues(Final(g, before), FinalRank(rank, before), last.n, last.constant, last.k, x, m);
    }
  }

  // ----- The nodes

  class Node {
    var kind: Kind
    var value: Word
    var name: string
    var op: Op
    var left: Node?
    var right: Node?

    /** ir_create_constant */
    constructor (value: Word)
      ensures Fields() == Content(IntegerLiteral, value, "", Add, null, null)
    {
      kind, this.value, name, op, left, right := IntegerLiteral, value, "", Add, null, null;
    }

    ghost function Fields(): Content
      reads this
    {
      Content(kind, value, name, op, left, right)
    }
  }

  ghost function Snapshot(nodes: set<Node>): Graph
    reads nodes
  {
    map n | n in nodes :: n.Fields()
  }

  /** Operands of nodes are nodes. */
  ghost predicate Closed(g: Graph) {
    forall n :: n in g ==> (g[n].left == null || g[n].left in g) && (g[n].right == null || g[n].right in g)
  }

  method IsPowerOfTwo(node: Node?) returns (r: bool)
    ensures r <==> node != null && node.kind == IntegerLiteral && PowerOfTwo(node.value)
  {
    if node == null || node.kind != IntegerLiteral { return false; }
    if node.value != 0 {
      AndPredecessorIff(node.value);
    }
    return node.value != 0 && And(node.value, node.value - 1) == 0;
  }

  /** optimize_strength_reduction, in place. */
  method ReduceStrength(n: Node, ghost nodes: set<Node>) returns (done: bool, ghost nodes': set<Node>, ghost step: Step)
    requires n in nodes && Closed(Snapshot(nodes))
    modifies n
    ensures done <==> exists k: nat :: Reducible(old(Snapshot(nodes)), n, k)
    ensures !done ==> nodes' == nodes && Snapshot(nodes) == old(Snapshot(nodes))
    ensures done ==>
      && step.n == n && Reducible(old(Snapshot(nodes)), n, step.k) && fresh(step.constant)
      && nodes' == nodes + {step.constant}
      && Snapshot(nodes') == Rewritten(old(Snapshot(nodes)), n, step.constant, step.k)
    ensures Closed(Snapshot(nodes'))
  {
    done, nodes', step := false, nodes, Step(n, n, 0);
    ghost var g := Snapshot(nodes);
    assert g[n] == n.Fields();
    assert n.right != null ==> g[n.right] == n.right.Fields();
    if n.kind != BinaryExpr || (n.op != Mul && n.op != Div) { return; }
    done := IsPowerOfTwo(n.right);
    if !done { return; }
    var shift := CountTrailingZeros(n.right.value);
    assert Reducible(g, n, shift);
    var constant := new Node(shift);
    Replace(n, constant, nodes);
    nodes', step := nodes + {constant}, Step(n, constant, shift);
  }

  /** The two assignments of the handler, on a node that is still a multiplication or division. */
  method Replace(n: Node, constant: Node, ghost nodes: set<Node>)
    requires n in nodes && constant !in nodes && Closed(Snapshot(nodes)) && n.Fields().Heavy()
    requires constant.Fields() == Content(IntegerLiteral, constant.value, "", Add, null, null)
    modifies n
    ensures Snapshot(nodes + {constant}) == Rewritten(old(Snapshot(nodes)), n, constant, constant.value)
    ensures Closed(Snapshot(nodes + {constant}))
  {
    ghost var g := Snapshot(nodes);
    n.op := if n.op == Mul then Shl else Shr;
    n.right := constant;
    assert Snapshot(nodes + {constant}) == Rewritten(g, n, constant, constant.value);
  }

  /** The graph has come from `g` by these steps. */
  ghost predicate Came(g: Graph, steps: seq<Step>, nodes: set<Node>)
    reads nodes
  {
    Closed(Snapshot(nodes)) && Possible(g, steps) && Snapshot(nodes) == Final(g, steps)
  }

  ghost predicate Irreducible(n: Node, g: Graph) {
    forall k: nat :: !Reducible(g, n, k)
  }

  /** One node of a pass. */
  method Try(n: Node, ghost g: Graph, ghost steps: seq<Step>, ghost nodes: set<Node>)
    returns (done: bool, ghost nodes': set<Node>, ghost steps': seq<Step>)
    requires Came(g, steps, nodes) && n in nodes
    modifies n
    ensures Came(g, steps', nodes') && nodes <= nodes' && fresh(nodes' - nodes)
    ensures |HeavyNodes(Snapshot(nodes'))| + |steps'| == |HeavyNodes(old(Snapshot(nodes)))| + |steps|
    ensures if done then |steps'| == |steps| + 1
            else steps' == steps && Snapshot(nodes') == old(Snapshot(nodes)) && Irreducible(n, Snapshot(nodes'))
  {
    ghost var before, step := Snapshot(nodes), Step(n, n, 0);
    done, nodes', step := ReduceStrength(n, nodes);
    steps' := steps;
    if done {
      RewritingRemovesHeavy(before, step.n, step.constant, step.k);
      steps' := steps + [step];
      assert steps'[..|steps|] == steps;
    }
  }

  /** One pass over the block; if nothing changes, nothing is left to rewrite. */
  method Pass(block: seq<Node>, ghost g: Graph, ghost steps: seq<Step>, ghost nodes: set<Node>)
    returns (changed: bool, ghost nodes': set<Node>, ghost steps': seq<Step>)
    requires Came(g, steps, nodes) && forall i :: 0 <= i < |block| ==> block[i] in nodes
    modifies nodes
    ensures Came(g, steps', nodes') && nodes <= nodes' && fresh(nodes' - nodes)
    ensures |HeavyNodes(Snapshot(nodes'))| + |steps'| == |HeavyNodes(old(Snapshot(nodes)))| + |steps|
    ensures if changed then |steps| < |steps'|
            else steps' == steps && forall i :: 0 <= i < |block| ==> Irreducible(block[i], Snapshot(nodes'))
  {
    changed, nodes', steps' := false, nodes, steps;
    for j := 0 to |block|
      invariant Came(g, steps', nodes') && nodes <= nodes' && fresh(nodes' - nodes)
      invariant |HeavyNodes(Snapshot(nodes'))| + |steps'| == |HeavyNodes(old(Snapshot(nodes)))| + |steps|
      invariant if changed then |steps| < |steps'|
                else steps' == steps && forall i :: 0 <= i < j ==> Irreducible(block[i], Snapshot(nodes'))
    {
      var done;
      done, nodes', steps' := Try(block[j], g, steps', nodes');
      changed := changed || done;
    }
  }

  /**
   peephole_optimize_block with this pattern alone: passes until nothing changes. They end,
   every change is a rewriting, and none is possible afterwards.
   */
  method OptimizeBlock(block: seq<Node>, ghost nodes: set<Node>)
    returns (modified: bool, ghost nodes': set<Node>, ghost steps: seq<Step>)
    requires Closed(Snapshot(nodes)) && forall i :: 0 <= i < |block| ==> block[i] in nodes
    modifies nodes
    ensures Came(old(Snapshot(nodes)), steps, nodes') && nodes <= nodes' && fresh(nodes' - nodes)
    ensures modified <==> steps != []
    ensures forall i :: 0 <= i < |block| ==> Irreducible(block[i], Snapshot(nodes'))
  {
    modified, nodes', steps := false, nodes, [];
    ghost var g := Snapshot(nodes);
    var changed := true;
    while changed
      invariant nodes <= nodes' && fresh(nodes' - nodes)
      invariant Came(g, steps, nodes') && (modified <==> steps != [])
      invariant !changed ==> forall i :: 0 <= i < |block| ==> Irreducible(block[i], Snapshot(nodes'))
      decreases |HeavyNodes(Snapshot(nodes'))|, changed
    {
      changed, nodes', steps := Pass(block, g, steps, nodes');
      modified := modified || changed;
    }
  }
}
