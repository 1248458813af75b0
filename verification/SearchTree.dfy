/** Balanced search trees as values: rebalancing, how high they get, and paths down them. */
module SearchTree {
  import opened Bytes

  // ----- Trees -----

  datatype Tree = Leaf | Node(left: Tree, slot: nat, right: Tree)

  function Height(t: Tree): nat
  {
    if t.Leaf? then 0 else 1 + Max(Height(t.left), Height(t.right))
  }

  function InOrder(t: Tree): seq<nat>
  {
    if t.Leaf? then [] else InOrder(t.left) + [t.slot] + InOrder(t.right)
  }

  /** The law of AVL trees. */
  predicate Balanced(t: Tree)
  {
    t.Node? ==> Balanced(t.left) && Balanced(t.right) && Height(t.left) <= Height(t.right) + 1 <= Height(t.left) + 2
  }

  /** No slot is met twice. */
  predicate Once(order: seq<nat>) { forall i, k :: 0 <= i < k < |order| ==> order[i] != order[k] }

  lemma OnceParts(t: Tree)
    requires t.Node? && Once(InOrder(t))
    ensures Once(InOrder(t.left)) && Once(InOrder(t.right)) && t.slot !in InOrder(t.left) && t.slot !in InOrder(t.right)
    ensures forall s :: s in InOrder(t.left) ==> s !in InOrder(t.right)
    ensures forall s :: s in InOrder(t) <==> s in InOrder(t.left) || s == t.slot || s in InOrder(t.right)
  {
    var order, n := InOrder(t), |InOrder(t.left)|;
    assert order[..n] == InOrder(t.left) && order[n] == t.slot && order[n + 1..] == InOrder(t.right);
    assert forall k :: 0 <= k < n ==> InOrder(t.left)[k] == order[k];
    assert forall k :: 0 <= k < |InOrder(t.right)| ==> InOrder(t.right)[k] == order[n + 1 + k];
  }

  lemma OnceMiddle(a: seq<nat>, b: seq<nat>, c: seq<nat>)
    requires Once(a + b + c)
    ensures Once(b) && forall x :: x in b ==> x !in a && x !in c
  {
    var all := a + b + c;
    assert forall k :: 0 <= k < |a| ==> all[k] == a[k];
    assert forall k :: 0 <= k < |b| ==> all[|a| + k] == b[k];
    assert forall k :: 0 <= k < |c| ==> all[|a| + |b| + k] == c[k];
  }

  lemma HasHeight(t: Tree)
    requires Height(t) > 0
    ensures t.Node?
  {
  }

  lemma SameOrder(a: Tree, b: Tree)
    requires a.Node? && b.Node? && a.slot == b.slot
    requires InOrder(a.left) == InOrder(b.left) && InOrder(a.right) == InOrder(b.right)
    ensures InOrder(a) == InOrder(b)
  {
  }

  lemma NewLeaf(node: nat)
    ensures var t := Node(Leaf, node, Leaf);
            Balanced(t) && Height(t) == 1 && InOrder(t) == [node] && Height(Leaf) == 0 && InOrder(Leaf) == []
  {
  }

  // ----- How high a balanced tree can be -----

  /** The Fibonacci numbers of `n` and `n + 1`. */
  function Fibonacci(n: nat): (r: (nat, nat))
  {
    if n == 0 then (0, 1) else var (a, b) := Fibonacci(n - 1); (b, a + b)
  }

  lemma FibonacciStart()
    ensures Fibonacci(0) == (0, 1)
  {
  }

  lemma {:induction false} FibonacciStep(n: nat)
    ensures Fibonacci(n).0 <= Fibonacci(n).1
  {
    if n > 0 {
      FibonacciStep(n - 1);
    }
  }

  lemma {:induction false} FibonacciGrows(m: nat, n: nat)
    requires m <= n
    ensures Fibonacci(m).0 <= Fibonacci(n).0 && Fibonacci(m).1 <= Fibonacci(n).1
  {
    if m < n {
      FibonacciGrows(m, n - 1);
      FibonacciStep(n - 1);
    }
  }

  lemma FibonacciFour(n: nat, a: nat, b: nat)
    requires Fibonacci(n) == (a, b)
    ensures Fibonacci(n + 4) == (2 * a + 3 * b, 3 * a + 5 * b)
  {
    assert Fibonacci(n + 4) == (Fibonacci(n + 3).1, Fibonacci(n + 3).0 + Fibonacci(n + 3).1);
    assert Fibonacci(n + 2) == (Fibonacci(n + 1).1, Fibonacci(n + 1).0 + Fibonacci(n + 1).1);
  }

  lemma FibonacciTwelve(n: nat, a: nat, b: nat)
    requires Fibonacci(n) == (a, b)
    ensures Fibonacci(n + 12) == (89 * a + 144 * b, 144 * a + 233 * b)
  {
    hide Fibonacci;
    FibonacciFour(n, a, b);
    FibonacciFour(n + 4, 2 * a + 3 * b, 3 * a + 5 * b);
    FibonacciFour(n + 8, 13 * a + 21 * b, 21 * a + 34 * b);
  }

  lemma FibonacciPast64()
    ensures Fibonacci(92).0 + Fibonacci(92).1 > U64
  {
    hide Fibonacci;
    assert Fibonacci(0) == (0, 1) by { FibonacciStart(); }
    FibonacciTwelve(0, 0, 1);
    FibonacciTwelve(12, 144, 233);
    FibonacciTwelve(24, 46368, 75025);
    FibonacciTwelve(36, 14930352, 24157817);
    FibonacciTwelve(48, 4807526976, 7778742049);
    FibonacciTwelve(60, 1548008755920, 2504730781961);
    FibonacciTwelve(72, 498454011879264, 806515533049393);
    FibonacciFour(84, 160500643816367088, 259695496911122585);
    FibonacciFour(88, 1100087778366101931, 1779979416004714189);
  }

  /** A balanced tree of height `h` has at least the `h + 2`-nd Fibonacci number of nodes, less one. */
  lemma {:induction false} BalancedIsLarge(t: Tree)
    requires Balanced(t)
    ensures |InOrder(t)| + 1 >= Fibonacci(Height(t)).0 + Fibonacci(Height(t)).1
  {
    if t.Node? {
      BalancedIsLarge(t.left);
      BalancedIsLarge(t.right);
      var h := Height(t) - 1;
      var lower := if Height(t.left) < Height(t.right) then Height(t.left) else Height(t.right);
      if h > 0 {
        FibonacciGrows(h - 1, lower);
        assert Fibonacci(h) == (Fibonacci(h - 1).1, Fibonacci(h - 1).0 + Fibonacci(h - 1).1);
      }
      assert Fibonacci(h + 1) == (Fibonacci(h).1, Fibonacci(h).0 + Fibonacci(h).1);
    }
  }

  const MAX_PATH: nat := 128

  /** No balanced tree that fits into memory comes near the path's bound. */
  lemma BalancedFits(t: Tree)
    requires Balanced(t) && |InOrder(t)| < U64
    ensures Height(t) <= 91 < MAX_PATH
  {
    hide Fibonacci;
    BalancedIsLarge(t);
    if Height(t) >= 92 {
      FibonacciGrows(92, Height(t));
      FibonacciPast64();
    }
  }

  // ----- Rebalancing -----

  function RotatedLeft(t: Tree): Tree
  {
    if t.Node? && t.right.Node? then Node(Node(t.left, t.slot, t.right.left), t.right.slot, t.right.right) else t
  }

  function RotatedRight(t: Tree): Tree
  {
    if t.Node? && t.left.Node? then Node(t.left.left, t.left.slot, Node(t.left.right, t.slot, t.right)) else t
  }

  /** One step of rebalancing, at a node whose children are balanced. */
  function Rebalanced(t: Tree): Tree
  {
    if t.Leaf? then t
    else if Height(t.left) > Height(t.right) + 1 then
      if Height(t.left.left) < Height(t.left.right) then RotatedRight(Node(RotatedLeft(t.left), t.slot, t.right))
      else RotatedRight(t)
    else if Height(t.right) > Height(t.left) + 1 then
      if Height(t.right.left) > Height(t.right.right) then RotatedLeft(Node(t.left, t.slot, RotatedRight(t.right)))
      else RotatedLeft(t)
    else t
  }

  lemma RotationsKeepOrder(t: Tree)
    ensures InOrder(RotatedLeft(t)) == InOrder(t) && InOrder(RotatedRight(t)) == InOrder(t)
  {
  }

  lemma RebalancedKeepsOrder(t: Tree)
    ensures InOrder(Rebalanced(t)) == InOrder(t)
  {
    hide Height;
    if t.Node? {
      RotationsKeepOrder(t);
      RotationsKeepOrder(t.left);
      RotationsKeepOrder(t.right);
      RotationsKeepOrder(Node(RotatedLeft(t.left), t.slot, t.right));
      RotationsKeepOrder(Node(t.left, t.slot, RotatedRight(t.right)));
    }
  }

  lemma NodeLaw(t: Tree)
    ensures t.Leaf? ==> Height(t) == 0
    ensures t.Node? ==> Height(t) == 1 + Max(Height(t.left), Height(t.right))
    ensures t.Node? ==> (Balanced(t) <==> Balanced(t.left) && Balanced(t.right) &&
                                          Height(t.left) <= Height(t.right) + 1 <= Height(t.left) + 2)
  {
  }

  lemma LeftHeavy(t: Tree)
    requires t.Node? && Balanced(t.left) && Balanced(t.right) && Height(t.left) == Height(t.right) + 2
    ensures Balanced(Rebalanced(t)) && Height(t) - 1 <= Height(Rebalanced(t)) <= Height(t)
  {
    hide Height, Balanced;
    NodeLaw(t);
    NodeLaw(t.left);
    var a, b := t.left.left, t.left.right;
    if Height(a) < Height(b) {
      NodeLaw(b);
      NodeLaw(Node(a, t.left.slot, b.left));
      NodeLaw(Node(b.right, t.slot, t.right));
      NodeLaw(Node(Node(a, t.left.slot, b.left), b.slot, Node(b.right, t.slot, t.right)));
    } else {
      NodeLaw(Node(b, t.slot, t.right));
      NodeLaw(Node(a, t.left.slot, Node(b, t.slot, t.right)));
    }
  }

  lemma RightHeavy(t: Tree)
    requires t.Node? && Balanced(t.left) && Balanced(t.right) && Height(t.right) == Height(t.left) + 2
    ensures Balanced(Rebalanced(t)) && Height(t) - 1 <= Height(Rebalanced(t)) <= Height(t)
  {
    hide Height, Balanced;
    NodeLaw(t);
    NodeLaw(t.right);
    var a, b := t.right.left, t.right.right;
    if Height(a) > Height(b) {
      NodeLaw(a);
      NodeLaw(Node(t.left, t.slot, a.left));
      NodeLaw(Node(a.right, t.right.slot, b));
      NodeLaw(Node(Node(t.left, t.slot, a.left), a.slot, Node(a.right, t.right.slot, b)));
    } else {
      NodeLaw(Node(t.left, t.slot, a));
      NodeLaw(Node(Node(t.left, t.slot, a), t.right.slot, b));
    }
  }

  /** Where the two sides differ by at most two the result is balanced, and at most one lower than the node was. */
  lemma RebalancedIsBalanced(t: Tree)
    requires t.Node? && Balanced(t.left) && Balanced(t.right)
    requires Height(t.left) <= Height(t.right) + 2 <= Height(t.left) + 4
    ensures Balanced(Rebalanced(t)) && Height(t) - 1 <= Height(Rebalanced(t)) <= Height(t)
    ensures Balanced(t) ==> Rebalanced(t) == t
  {
    hide Height, Balanced;
    NodeLaw(t);
    NodeLaw(t.left);
    NodeLaw(t.right);
    if Height(t.left) > Height(t.right) + 1 {
      LeftHeavy(t);
    } else if Height(t.right) > Height(t.left) + 1 {
      RightHeavy(t);
    }
  }

  // ----- A path down the tree -----

  datatype Direction = Left | Right

  /** One step of a path: from this node to one side, past the other. */
  datatype Step = Step(slot: nat, direction: Direction, other: Tree)

  function Wrap(step: Step, t: Tree): Tree
  {
    if step.direction.Left? then Node(t, step.slot, step.other) else Node(step.other, step.slot, t)
  }

  /** The whole tree, with `t` at the end of the path. */
  function Plug(steps: seq<Step>, t: Tree): Tree
  {
    if steps == [] then t else Plug(steps[..|steps| - 1], Wrap(steps[|steps| - 1], t))
  }

  /** What lies to the left of the path, and to its right. */
  function Lefts(steps: seq<Step>): seq<nat>
  {
    if steps == [] then []
    else
      var last := steps[|steps| - 1];
      Lefts(steps[..|steps| - 1]) + if last.direction.Left? then [] else InOrder(last.other) + [last.slot]
  }

  function Rights(steps: seq<Step>): seq<nat>
  {
    if steps == [] then []
    else
      var last := steps[|steps| - 1];
      (if last.direction.Left? then [last.slot] + InOrder(last.other) else []) + Rights(steps[..|steps| - 1])
  }

  lemma PathEnds()
    ensures Lefts([]) == [] && Rights([]) == []
  {
  }

  lemma {:induction false} PlugOrder(steps: seq<Step>, t: Tree)
    ensures InOrder(Plug(steps, t)) == Lefts(steps) + InOrder(t) + Rights(steps)
    decreases |steps|
  {
    if steps != [] {
      PlugOrder(steps[..|steps| - 1], Wrap(steps[|steps| - 1], t));
    }
  }

  lemma {:induction false} PlugParts(steps: seq<Step>, t: Tree)
    requires Balanced(Plug(steps, t))
    ensures Balanced(t) && |steps| + Height(t) <= Height(Plug(steps, t))
    decreases |steps|
  {
    if steps != [] {
      PlugParts(steps[..|steps| - 1], Wrap(steps[|steps| - 1], t));
    }
  }

  lemma Regroup(a: seq<nat>, b: seq<nat>, s: nat, c: seq<nat>, d: seq<nat>)
    ensures a + (b + [s] + c) + d == a + b + [s] + c + d && s in a + b + [s] + c + d
  {
    assert (a + b + [s] + c + d)[|a| + |b|] == s;
  }

  lemma PathInOrder(steps: seq<Step>, sub: Tree, order: seq<nat>)
    requires sub.Node? && InOrder(Plug(steps, sub)) == order
    ensures order == Lefts(steps) + InOrder(sub.left) + [sub.slot] + InOrder(sub.right) + Rights(steps)
    ensures sub.slot in order
  {
    PlugOrder(steps, sub);
    assert InOrder(sub) == InOrder(sub.left) + [sub.slot] + InOrder(sub.right);
    Regroup(Lefts(steps), InOrder(sub.left), sub.slot, InOrder(sub.right), Rights(steps));
  }

  lemma StepDown(steps: seq<Step>, step: Step, t: Tree)
    ensures var next := steps + [step];
            Plug(next, t) == Plug(steps, Wrap(step, t)) &&
            Lefts(next) == Lefts(steps) + (if step.direction.Left? then [] else InOrder(step.other) + [step.slot]) &&
            Rights(next) == (if step.direction.Left? then [step.slot] + InOrder(step.other) else []) + Rights(steps)
  {
    assert (steps + [step])[..|steps|] == steps;
  }

  lemma LastStep(steps: seq<Step>, t: Tree)
    requires steps != []
    ensures var init, last := steps[..|steps| - 1], steps[|steps| - 1];
            Plug(steps, t) == Plug(init, Wrap(last, t)) &&
            Lefts(steps) + InOrder(t) + Rights(steps) == Lefts(init) + InOrder(Wrap(last, t)) + Rights(init)
  {
  }

  /** Everything a path passes lies to its left or to its right. */
  lemma {:induction false} PathMembers(steps: seq<Step>, k: nat)
    requires k < |steps|
    ensures steps[k].slot in Lefts(steps) + Rights(steps)
    ensures forall x :: x in InOrder(steps[k].other) ==> x in Lefts(steps) + Rights(steps)
    decreases |steps|
  {
    if k < |steps| - 1 {
      PathMembers(steps[..|steps| - 1], k);
    }
  }

  /** One step up: what the tree at the end has become, against what stood there. */
  lemma StepUp(step: Step, was: Tree, now: Tree)
    requires Balanced(Wrap(step, was)) && Balanced(now) && Height(was) <= Height(now) <= Height(was) + 1
    ensures var up := Rebalanced(Wrap(step, now));
            Balanced(up) && Height(Wrap(step, was)) <= Height(up) <= Height(Wrap(step, was)) + 1
  {
    hide Balanced, Height, Rebalanced;
    NodeLaw(Wrap(step, was));
    NodeLaw(Wrap(step, now));
    RebalancedIsBalanced(Wrap(step, now));
  }
}
