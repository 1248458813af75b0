/** The incremental index of a large object: a balanced search tree kept in a vector of nodes. */
module KeyIndex {
  import opened Bytes
  import opened ObjectBuilder
  import opened SearchTree

  // ----- Keys and their first eight bytes -----

  /** Every character is the code of one byte. */
  predicate IsByteString(s: string) { forall k :: 0 <= k < |s| ==> s[k] < '\U{100}' }

  function Power256(n: nat): (r: nat)
    ensures r > 0
  {
    if n == 0 then 1 else 256 * Power256(n - 1)
  }

  /** The first `n` bytes, zero-padded, as a big-endian number. */
  function Word(s: string, n: nat): nat
  {
    if n == 0 || s == [] then 0 else s[0] as nat * Power256(n - 1) + Word(s[1..], n - 1)
  }

  function KeyPrefix(key: string): nat { Word(key, 8) }

  /** Byte `k`, and zero behind the end. */
  function ByteAt(s: string, k: nat): nat { if k < |s| then s[k] as nat else 0 }

  /** The prefix of a key is the number of its first eight bytes, the first one highest, padded with zeros behind. */
  lemma PrefixIs(key: string)
    ensures var b := k requires k >= 0 => ByteAt(key, k);
            KeyPrefix(key) ==
            ((((((b(0) * 256 + b(1)) * 256 + b(2)) * 256 + b(3)) * 256 + b(4)) * 256 + b(5)) * 256 + b(6)) * 256 + b(7)
  {
    hide Word;
    assert Word(key, 0) == 0 by { NoWord(key); }
    WordNext(key, 0);
    WordNext(key, 1);
    WordNext(key, 2);
    WordNext(key, 3);
    WordNext(key, 4);
    WordNext(key, 5);
    WordNext(key, 6);
    WordNext(key, 7);
  }

  lemma NoWord(s: string)
    ensures Word(s, 0) == 0
  {
  }

  /** One more byte at the low end. */
  lemma {:induction false} WordNext(s: string, n: nat)
    ensures Word(s, n + 1) == Word(s, n) * 256 + ByteAt(s, n)
    decreases n
  {
    if s != [] && n > 0 {
      var p := Power256(n - 1);
      WordNext(s[1..], n - 1);
      assert Power256(n) == 256 * p;
      assert s[0] as nat * (256 * p) == (s[0] as nat * p) * 256;
    }
  }

  lemma LessByOne(a: nat, b: nat, p: nat)
    requires a < b
    ensures a * p + p <= b * p
  {
    assert (a + 1) * p <= b * p;
  }

  lemma {:induction false} WordFits(s: string, n: nat)
    requires IsByteString(s)
    ensures Word(s, n) < Power256(n)
  {
    if n > 0 && s != [] {
      WordFits(s[1..], n - 1);
      LessByOne(s[0] as nat, 256, Power256(n - 1));
    }
  }

  /** Where the words differ they order the keys as the keys themselves do. */
  lemma {:induction false} WordOrders(a: string, b: string, n: nat)
    requires IsByteString(a) && IsByteString(b) && Word(a, n) < Word(b, n)
    ensures Before(a, b)
  {
    if a != [] {
      var p := Power256(n - 1);
      WordFits(b[1..], n - 1);
      if a[0] > b[0] {
        LessByOne(b[0] as nat, a[0] as nat, p);
      } else if a[0] == b[0] {
        WordOrders(a[1..], b[1..], n - 1);
      }
    }
  }

  datatype Ordering = Less | Equal | Greater

  /** The prefix word first, and the keys themselves only where it says nothing. */
  function Compare(prefix: nat, key: string, stored: nat, other: string): Ordering
  {
    if prefix < stored then Less
    else if prefix > stored then Greater
    else if Before(key, other) then Less
    else if key == other then Equal
    else Greater
  }

  /** It is the order of the keys. */
  lemma CompareIsBefore(a: string, b: string)
    requires IsByteString(a) && IsByteString(b)
    ensures match Compare(KeyPrefix(a), a, KeyPrefix(b), b)
            case Less => Before(a, b)
            case Equal => a == b
            case Greater => Before(b, a)
  {
    BeforeTotal(a, b);
    if KeyPrefix(a) < KeyPrefix(b) {
      WordOrders(a, b, 8);
    } else if KeyPrefix(a) > KeyPrefix(b) {
      WordOrders(b, a, 8);
    }
  }

  // ----- The nodes in their vector -----

  datatype IndexNode = IndexNode(position: nat, prefix: nat, left: Option<nat>, right: Option<nat>, height: nat)

  function HeightAt(nodes: seq<IndexNode>, child: Option<nat>): nat
    requires child.Some? ==> child.value < |nodes|
  {
    if child.Some? then nodes[child.value].height else 0
  }

  /** The tree that a link leads to. */
  predicate Shape(nodes: seq<IndexNode>, link: Option<nat>, t: Tree)
    decreases t, 1
  {
    match t
    case Leaf => link == None
    case Node(_, slot, _) => link == Some(slot) && ShapeBelow(nodes, t) && nodes[slot].height == Height(t)
  }

  /** As `Shape`, but for a height that may be out of date. */
  predicate ShapeBelow(nodes: seq<IndexNode>, t: Tree)
    requires t.Node?
    decreases t, 0
  {
    t.slot < |nodes| && Shape(nodes, nodes[t.slot].left, t.left) && Shape(nodes, nodes[t.slot].right, t.right)
  }

  lemma ShapeHeight(nodes: seq<IndexNode>, link: Option<nat>, t: Tree)
    requires Shape(nodes, link, t)
    ensures link.Some? ==> link.value < |nodes|
    ensures HeightAt(nodes, link) == Height(t) && (link.Some? <==> t.Node?)
  {
  }

  lemma ShapeOpens(nodes: seq<IndexNode>, link: Option<nat>, t: Tree)
    requires Shape(nodes, link, t) && t.Node?
    ensures link == Some(t.slot) && t.slot < |nodes|
    ensures Shape(nodes, nodes[t.slot].left, t.left) && Shape(nodes, nodes[t.slot].right, t.right)
  {
  }

  lemma {:induction false} ShapeFrame(was: seq<IndexNode>, now: seq<IndexNode>, link: Option<nat>, t: Tree)
    requires Shape(was, link, t) && |was| <= |now|
    requires forall s :: s in InOrder(t) && s < |was| ==> now[s] == was[s]
    ensures Shape(now, link, t)
    decreases t
  {
    if t.Node? {
      ShapeFrame(was, now, was[t.slot].left, t.left);
      ShapeFrame(was, now, was[t.slot].right, t.right);
    }
  }

  lemma {:induction false} SameLinks(was: seq<IndexNode>, now: seq<IndexNode>, link: Option<nat>, t: Tree)
    requires Shape(was, link, t) && |was| == |now|
    requires forall s :: 0 <= s < |was| ==>
               now[s].left == was[s].left && now[s].right == was[s].right && now[s].height == was[s].height
    ensures Shape(now, link, t)
    decreases t
  {
    if t.Node? {
      SameLinks(was, now, was[t.slot].left, t.left);
      SameLinks(was, now, was[t.slot].right, t.right);
    }
  }

  lemma LeafShape(nodes: seq<IndexNode>, s: nat)
    requires s < |nodes| && nodes[s].left == None && nodes[s].right == None && nodes[s].height == 1
    ensures Shape(nodes, Some(s), Node(Leaf, s, Leaf))
  {
  }

  /** Nothing changed but links and heights, and these only at the listed slots. */
  predicate Relinked(was: seq<IndexNode>, now: seq<IndexNode>, slots: seq<nat>)
  {
    |now| == |was| &&
    (forall s :: 0 <= s < |was| && s !in slots ==> now[s] == was[s]) &&
    forall s :: 0 <= s < |was| ==> now[s].position == was[s].position && now[s].prefix == was[s].prefix
  }

  lemma RelinkedSame(nodes: seq<IndexNode>, slots: seq<nat>)
    ensures Relinked(nodes, nodes, slots)
  {
  }

  lemma RelinkedThen(a: seq<IndexNode>, b: seq<IndexNode>, c: seq<IndexNode>, slots: seq<nat>, more: seq<nat>)
    requires Relinked(a, b, slots) && Relinked(b, c, more) && forall x :: x in more ==> x in slots
    ensures Relinked(a, c, slots)
  {
  }

  // ----- A path in the vector -----

  predicate StepShape(nodes: seq<IndexNode>, step: Step)
  {
    step.slot < |nodes| &&
    Shape(nodes, if step.direction.Left? then nodes[step.slot].right else nodes[step.slot].left, step.other)
  }

  /** The nodes hold the path: its slots exist, and the sides it does not take are there. */
  predicate PathShape(nodes: seq<IndexNode>, steps: seq<Step>)
  {
    forall k :: 0 <= k < |steps| ==> StepShape(nodes, steps[k])
  }

  predicate OnPath(path: seq<Option<(nat, Direction)>>, steps: seq<Step>)
  {
    |path| == |steps| && forall k :: 0 <= k < |steps| ==> path[k] == Some((steps[k].slot, steps[k].direction))
  }

  lemma EmptyPath(nodes: seq<IndexNode>)
    ensures PathShape(nodes, []) && OnPath([], [])
  {
  }

  lemma PathPush(nodes: seq<IndexNode>, was: seq<Option<(nat, Direction)>>, now: seq<Option<(nat, Direction)>>,
                 steps: seq<Step>, step: Step)
    requires PathShape(nodes, steps) && StepShape(nodes, step) && OnPath(was, steps)
    requires now == was + [Some((step.slot, step.direction))]
    ensures PathShape(nodes, steps + [step]) && OnPath(now, steps + [step])
  {
    hide Shape;
  }

  lemma PathAt(nodes: seq<IndexNode>, steps: seq<Step>)
    requires steps != [] && PathShape(nodes, steps)
    ensures StepShape(nodes, steps[|steps| - 1]) && PathShape(nodes, steps[..|steps| - 1])
  {
  }

  /** Changes inside the subtree at its end leave a path alone. */
  lemma PathFrame(was: seq<IndexNode>, now: seq<IndexNode>, steps: seq<Step>, slots: seq<nat>)
    requires PathShape(was, steps) && Relinked(was, now, slots)
    requires Once(Lefts(steps) + slots + Rights(steps))
    ensures PathShape(now, steps)
  {
    hide Shape, Lefts, Rights;
    OnceMiddle(Lefts(steps), slots, Rights(steps));
    forall k | 0 <= k < |steps|
      ensures StepShape(now, steps[k])
    {
      assert StepShape(was, steps[k]);
      PathMembers(steps, k);
      assert now[steps[k].slot] == was[steps[k].slot];
      ShapeFrame(was, now, if steps[k].direction.Left? then was[steps[k].slot].right else was[steps[k].slot].left,
                 steps[k].other);
    }
  }

  /** A pushed node changes nothing for a path. */
  lemma PathGrows(was: seq<IndexNode>, now: seq<IndexNode>, steps: seq<Step>)
    requires PathShape(was, steps) && was <= now
    ensures PathShape(now, steps)
  {
    forall k | 0 <= k < |steps|
      ensures StepShape(now, steps[k])
    {
      var step := steps[k];
      assert StepShape(was, step);
      ShapeFrame(was, now, if step.direction.Left? then was[step.slot].right else was[step.slot].left, step.other);
    }
  }

  // ----- What the index says -----

  function KeysOf<V>(entries: seq<Entry<V>>): (keys: seq<string>)
    ensures |keys| == |entries| && forall k :: 0 <= k < |keys| ==> keys[k] == entries[k].key
  {
    seq(|entries|, k requires 0 <= k < |entries| => entries[k].key)
  }

  /** The key a node stands for. */
  function SlotKey(nodes: seq<IndexNode>, keys: seq<string>, s: nat): string
  {
    if s < |nodes| && nodes[s].position < |keys| then keys[nodes[s].position] else ""
  }

  predicate Keyed(nodes: seq<IndexNode>, keys: seq<string>)
  {
    forall s :: 0 <= s < |nodes| ==>
      nodes[s].position < |keys| && IsByteString(SlotKey(nodes, keys, s)) &&
      nodes[s].prefix == KeyPrefix(SlotKey(nodes, keys, s))
  }

  predicate SortedBy(nodes: seq<IndexNode>, keys: seq<string>, order: seq<nat>)
  {
    forall i, k :: 0 <= i < k < |order| ==> Before(SlotKey(nodes, keys, order[i]), SlotKey(nodes, keys, order[k]))
  }

  /** Every node is in the tree, and the tree is no more than that. */
  ghost predicate Everywhere(nodes: seq<IndexNode>, order: seq<nat>)
  {
    Once(order) && |order| == |nodes| && forall s: nat :: s < |nodes| <==> s in order
  }

  /** The keys of the nodes and their positions. */
  ghost predicate Leads(nodes: seq<IndexNode>, keys: seq<string>, positions: map<string, nat>)
  {
    (forall s :: 0 <= s < |nodes| ==>
       SlotKey(nodes, keys, s) in positions && positions[SlotKey(nodes, keys, s)] == nodes[s].position) &&
    forall key :: key in positions ==> exists s: nat :: s < |nodes| && SlotKey(nodes, keys, s) == key
  }

  lemma Known(nodes: seq<IndexNode>, keys: seq<string>, positions: map<string, nat>, s: nat)
    requires Leads(nodes, keys, positions) && s < |nodes|
    ensures SlotKey(nodes, keys, s) in positions && positions[SlotKey(nodes, keys, s)] == nodes[s].position
  {
  }

  /** More keys change nothing for the nodes that are there. */
  lemma MoreKeys(nodes: seq<IndexNode>, was: seq<string>, keys: seq<string>, order: seq<nat>,
                 positions: map<string, nat>)
    requires Keyed(nodes, was) && was <= keys
    ensures Keyed(nodes, keys) && (SortedBy(nodes, was, order) ==> SortedBy(nodes, keys, order))
    ensures Leads(nodes, was, positions) ==> Leads(nodes, keys, positions)
    ensures forall lefts, rights, key ::
              Between(nodes, was, lefts, rights, key) ==> Between(nodes, keys, lefts, rights, key)
    ensures forall s: nat :: SlotKey(nodes, keys, s) == SlotKey(nodes, was, s)
  {
    hide Before, KeyPrefix, IsByteString;
    assert forall s: nat :: SlotKey(nodes, keys, s) == SlotKey(nodes, was, s);
  }

  lemma SlotsApart(nodes: seq<IndexNode>, keys: seq<string>, order: seq<nat>, s: nat, r: nat)
    requires SortedBy(nodes, keys, order) && s in order && r in order && s != r
    ensures SlotKey(nodes, keys, s) != SlotKey(nodes, keys, r)
  {
    hide SlotKey, Before;
    var i :| 0 <= i < |order| && order[i] == s;
    var k :| 0 <= k < |order| && order[k] == r;
    BeforeStrict(SlotKey(nodes, keys, s), SlotKey(nodes, keys, r));
    BeforeStrict(SlotKey(nodes, keys, s), SlotKey(nodes, keys, s));
  }

  /** Another position of the same key. */
  lemma Repositioned(was: seq<IndexNode>, now: seq<IndexNode>, keys: seq<string>, hit: nat, order: seq<nat>,
                     before: map<string, nat>, position: nat)
    requires hit < |was| && position < |keys| && keys[position] == SlotKey(was, keys, hit)
    requires now == was[hit := was[hit].(position := position)]
    requires Keyed(was, keys) && SortedBy(was, keys, order) && Leads(was, keys, before) && Everywhere(was, order)
    ensures Keyed(now, keys) && SortedBy(now, keys, order) && Everywhere(now, order)
    ensures Leads(now, keys, before[keys[position] := position])
  {
    hide Before, KeyPrefix, IsByteString, Once;
    assert forall s :: SlotKey(now, keys, s) == SlotKey(was, keys, s);
    forall s | 0 <= s < |now| && s != hit
      ensures SlotKey(was, keys, s) != SlotKey(was, keys, hit)
    {
      SlotsApart(was, keys, order, s, hit);
    }
  }

  lemma InsertedOrder(was: seq<IndexNode>, lefts: seq<nat>, rights: seq<nat>)
    requires Everywhere(was, lefts + rights)
    ensures var order := lefts + [|was|] + rights;
            Once(order) && |order| == |was| + 1 && forall s: nat :: s < |was| + 1 <==> s in order
  {
    var order, old' := lefts + [|was|] + rights, lefts + rights;
    assert forall k :: 0 <= k < |lefts| ==> order[k] == old'[k] && old'[k] in old';
    assert forall k :: |lefts| < k < |order| ==> order[k] == old'[k - 1] && old'[k - 1] in old';
    assert order[|lefts|] == |was|;
    assert forall s :: s in old' <==> s in lefts || s in rights;
    assert forall s :: s in order <==> s in lefts || s == |was| || s in rights;
  }

  lemma EverywhereOnce(was: seq<IndexNode>, lefts: seq<nat>, rights: seq<nat>)
    requires Everywhere(was, lefts + rights)
    ensures Once(lefts + [|was|] + rights)
  {
    InsertedOrder(was, lefts, rights);
  }

  lemma InsertedSorted(was: seq<IndexNode>, now: seq<IndexNode>, keys: seq<string>, lefts: seq<nat>, rights: seq<nat>,
                       key: string)
    requires SortedBy(was, keys, lefts + rights) && Everywhere(was, lefts + rights)
    requires Between(was, keys, lefts, rights, key) && SlotKey(now, keys, |was|) == key
    requires forall s :: 0 <= s < |was| ==> SlotKey(now, keys, s) == SlotKey(was, keys, s)
    ensures SortedBy(now, keys, lefts + [|was|] + rights)
  {
    hide Before, SlotKey, Once;
    var order, old' := lefts + [|was|] + rights, lefts + rights;
    forall i, k | 0 <= i < k < |order|
      ensures Before(SlotKey(now, keys, order[i]), SlotKey(now, keys, order[k]))
    {
      var i', k' := if i < |lefts| then i else i - 1, if k < |lefts| then k else k - 1;
      assert i != |lefts| ==> order[i] == old'[i'] && old'[i'] in old';
      assert k != |lefts| ==> order[k] == old'[k'] && old'[k'] in old';
      assert i == |lefts| ==> order[k] in rights;
      assert k == |lefts| ==> order[i] in lefts;
    }
  }

  /** A new node between the slots its key belongs between. */
  lemma Inserted(was: seq<IndexNode>, now: seq<IndexNode>, keys: seq<string>, lefts: seq<nat>, rights: seq<nat>,
                 before: map<string, nat>, position: nat)
    requires Keyed(was, keys) && SortedBy(was, keys, lefts + rights) && Everywhere(was, lefts + rights)
    requires Leads(was, keys, before) && position < |keys| && IsByteString(keys[position]) && |now| == |was| + 1
    requires Between(was, keys, lefts, rights, keys[position])
    requires forall s :: 0 <= s < |was| ==> now[s].position == was[s].position && now[s].prefix == was[s].prefix
    requires now[|was|].position == position && now[|was|].prefix == KeyPrefix(keys[position])
    ensures var order := lefts + [|was|] + rights;
            Keyed(now, keys) && SortedBy(now, keys, order) && Everywhere(now, order)
    ensures Leads(now, keys, before[keys[position] := position])
  {
    hide Before, KeyPrefix, IsByteString;
    InsertedOrder(was, lefts, rights);
    assert forall s :: 0 <= s < |was| ==> SlotKey(now, keys, s) == SlotKey(was, keys, s);
    assert SlotKey(now, keys, |was|) == keys[position];
    InsertedSorted(was, now, keys, lefts, rights, keys[position]);
    forall s: nat | s < |was|
      ensures SlotKey(was, keys, s) != keys[position]
    {
      BeforeStrict(keys[position], keys[position]);
      assert s in lefts + rights;
    }
  }

  /** Relinking leaves positions and prefixes alone. */
  lemma MovedKeys(was: seq<IndexNode>, mid: seq<IndexNode>, now: seq<IndexNode>, position: nat, prefix: nat,
                  slots: seq<nat>)
    requires |mid| == |was| + 1 && was <= mid && mid[|was|].position == position && mid[|was|].prefix == prefix
    requires Relinked(mid, now, slots)
    ensures |now| == |was| + 1 && now[|was|].position == position && now[|was|].prefix == prefix
    ensures forall s :: 0 <= s < |was| ==> now[s].position == was[s].position && now[s].prefix == was[s].prefix
  {
  }

  // ----- The walk down -----

  /** The key belongs between these slots. */
  ghost predicate Between(nodes: seq<IndexNode>, keys: seq<string>, lefts: seq<nat>, rights: seq<nat>, key: string)
  {
    (forall s :: s in lefts ==> Before(SlotKey(nodes, keys, s), key)) &&
    forall s :: s in rights ==> Before(key, SlotKey(nodes, keys, s))
  }

  lemma GoLeft(nodes: seq<IndexNode>, keys: seq<string>, order: seq<nat>, steps: seq<Step>, sub: Tree, key: string)
    requires sub.Node? && InOrder(Plug(steps, sub)) == order && SortedBy(nodes, keys, order)
    requires Between(nodes, keys, Lefts(steps), Rights(steps), key) && Before(key, SlotKey(nodes, keys, sub.slot))
    ensures var next := steps + [Step(sub.slot, Left, sub.right)];
            Plug(next, sub.left) == Plug(steps, sub) && Between(nodes, keys, Lefts(next), Rights(next), key)
  {
    hide SlotKey, Before, InOrder, Plug, Lefts, Rights;
    PathInOrder(steps, sub, order);
    StepDown(steps, Step(sub.slot, Left, sub.right), sub.left);
    var at := |Lefts(steps)| + |InOrder(sub.left)|;
    forall s | s in InOrder(sub.right)
      ensures Before(key, SlotKey(nodes, keys, s))
    {
      var k: nat :| k < |InOrder(sub.right)| && InOrder(sub.right)[k] == s;
      assert order[at] == sub.slot && order[at + 1 + k] == s;
      BeforeTransitive(key, SlotKey(nodes, keys, sub.slot), SlotKey(nodes, keys, s));
    }
  }

  lemma GoRight(nodes: seq<IndexNode>, keys: seq<string>, order: seq<nat>, steps: seq<Step>, sub: Tree, key: string)
    requires sub.Node? && InOrder(Plug(steps, sub)) == order && SortedBy(nodes, keys, order)
    requires Between(nodes, keys, Lefts(steps), Rights(steps), key) && Before(SlotKey(nodes, keys, sub.slot), key)
    ensures var next := steps + [Step(sub.slot, Right, sub.left)];
            Plug(next, sub.right) == Plug(steps, sub) && Between(nodes, keys, Lefts(next), Rights(next), key)
  {
    hide SlotKey, Before, InOrder, Plug, Lefts, Rights;
    PathInOrder(steps, sub, order);
    StepDown(steps, Step(sub.slot, Right, sub.left), sub.right);
    var at := |Lefts(steps)| + |InOrder(sub.left)|;
    forall s | s in InOrder(sub.left)
      ensures Before(SlotKey(nodes, keys, s), key)
    {
      var k: nat :| k < |InOrder(sub.left)| && InOrder(sub.left)[k] == s;
      assert order[at] == sub.slot && order[|Lefts(steps)| + k] == s;
      BeforeTransitive(SlotKey(nodes, keys, s), SlotKey(nodes, keys, sub.slot), key);
    }
  }

  lemma NotThere(nodes: seq<IndexNode>, keys: seq<string>, steps: seq<Step>, order: seq<nat>,
                 positions: map<string, nat>, key: string)
    requires InOrder(Plug(steps, Leaf)) == order && Everywhere(nodes, order) && Leads(nodes, keys, positions)
    requires Between(nodes, keys, Lefts(steps), Rights(steps), key)
    ensures key !in positions
  {
    hide Plug, Lefts, Rights, Before;
    PlugOrder(steps, Leaf);
    BeforeStrict(key, key);
    forall s: nat | s < |nodes|
      ensures SlotKey(nodes, keys, s) != key
    {
      assert s in order;
    }
  }

  // ----- The index -----

  class IncrementalIndex {
    var nodes: seq<IndexNode>
    var root: Option<nat>
    ghost var tree: Tree
    /** Where each key is. */
    ghost var positions: map<string, nat>

    ghost predicate Valid(keys: seq<string>)
      reads this
    {
      Shape(nodes, root, tree) && Balanced(tree) && Everywhere(nodes, InOrder(tree)) && Keyed(nodes, keys) &&
      SortedBy(nodes, keys, InOrder(tree)) && Leads(nodes, keys, positions)
    }

    constructor ()
      ensures Valid([]) && positions == map[] && nodes == []
    {
      nodes, root := [], None;
      tree, positions := Leaf, map[];
    }

    lemma MoreKeysValid(was: seq<string>, keys: seq<string>)
      requires Valid(was) && was <= keys
      ensures Valid(keys)
    {
      MoreKeys(nodes, was, keys, InOrder(tree), positions);
    }

    /** The walk that finds a key's position, or that there is none. */
    method Get<V>(entries: seq<Entry<V>>, key: string) returns (found: Option<nat>)
      requires Valid(KeysOf(entries)) && IsByteString(key)
      ensures found == if key in positions then Some(positions[key]) else None
    {
      hide Shape, Before, KeyPrefix, InOrder, Balanced, IsByteString;
      var prefix := KeyPrefix(key);
      var cursor := root;
      ghost var keys, order := KeysOf(entries), InOrder(tree);
      ghost var sub, steps := tree, [];
      PlugOrder(steps, sub);
      while cursor.Some?
        invariant Shape(nodes, cursor, sub) && Plug(steps, sub) == tree
        invariant Between(nodes, keys, Lefts(steps), Rights(steps), key)
        decreases sub
      {
        ShapeHeight(nodes, cursor, sub);
        ShapeOpens(nodes, cursor, sub);
        var node := nodes[cursor.value];
        PathInOrder(steps, sub, order);
        assert SlotKey(nodes, keys, sub.slot) == entries[node.position].key;
        CompareIsBefore(key, entries[node.position].key);
        match Compare(prefix, key, node.prefix, entries[node.position].key) {
          case Less =>
            ghost var step := Step(sub.slot, Left, sub.right);
            GoLeft(nodes, keys, order, steps, sub, key);
            steps, sub := steps + [step], sub.left;
            cursor := node.left;
          case Equal =>
            return Some(node.position);
          case Greater =>
            ghost var step := Step(sub.slot, Right, sub.left);
            GoRight(nodes, keys, order, steps, sub, key);
            steps, sub := steps + [step], sub.right;
            cursor := node.right;
        }
      }
      ShapeHeight(nodes, cursor, sub);
      NotThere(nodes, keys, steps, order, positions, key);
      return None;
    }

    method UpdateHeight(node: nat, ghost t: Tree)
      requires t.Node? && t.slot == node && ShapeBelow(nodes, t) && Once(InOrder(t))
      modifies this`nodes
      ensures Relinked(old(nodes), nodes, [node]) && Shape(nodes, Some(node), t)
    {
      ghost var was := nodes;
      ShapeHeight(nodes, nodes[node].left, t.left);
      ShapeHeight(nodes, nodes[node].right, t.right);
      OnceParts(t);
      var height := 1 + Max(HeightAt(nodes, nodes[node].left), HeightAt(nodes, nodes[node].right));
      nodes := nodes[node := nodes[node].(height := height)];
      ShapeFrame(was, nodes, was[node].left, t.left);
      ShapeFrame(was, nodes, was[node].right, t.right);
    }

    method RotateLeft(node: nat, ghost t: Tree) returns (top: nat)
      requires t.Node? && t.right.Node? && t.slot == node && ShapeBelow(nodes, t) && Once(InOrder(t))
      modifies this`nodes
      ensures Relinked(old(nodes), nodes, InOrder(t)) && Shape(nodes, Some(top), RotatedLeft(t))
    {
      hide Shape, Once, InOrder, Height;
      ghost var was := nodes;
      OnceParts(t);
      OnceParts(t.right);
      ShapeOpens(nodes, nodes[node].right, t.right);
      top := nodes[node].right.value;
      var middle := nodes[top].left;
      nodes := nodes[node := nodes[node].(right := middle)];
      ghost var lower := Node(t.left, node, t.right.left);
      ShapeFrame(was, nodes, was[node].left, t.left);
      ShapeFrame(was, nodes, middle, t.right.left);
      RotationsKeepOrder(t);
      OnceParts(RotatedLeft(t));
      OnceParts(lower);
      UpdateHeight(node, lower);
      ghost var mid := nodes;
      nodes := nodes[top := nodes[top].(left := Some(node))];
      ShapeFrame(mid, nodes, Some(node), lower);
      ShapeFrame(was, nodes, was[top].right, t.right.right);
      UpdateHeight(top, RotatedLeft(t));
    }

    method RotateRight(node: nat, ghost t: Tree) returns (top: nat)
      requires t.Node? && t.left.Node? && t.slot == node && ShapeBelow(nodes, t) && Once(InOrder(t))
      modifies this`nodes
      ensures Relinked(old(nodes), nodes, InOrder(t)) && Shape(nodes, Some(top), RotatedRight(t))
    {
      hide Shape, Once, InOrder, Height;
      ghost var was := nodes;
      OnceParts(t);
      OnceParts(t.left);
      ShapeOpens(nodes, nodes[node].left, t.left);
      top := nodes[node].left.value;
      var middle := nodes[top].right;
      nodes := nodes[node := nodes[node].(left := middle)];
      ghost var lower := Node(t.left.right, node, t.right);
      ShapeFrame(was, nodes, was[node].right, t.right);
      ShapeFrame(was, nodes, middle, t.left.right);
      RotationsKeepOrder(t);
      OnceParts(RotatedRight(t));
      OnceParts(lower);
      UpdateHeight(node, lower);
      ghost var mid := nodes;
      nodes := nodes[top := nodes[top].(right := Some(node))];
      ShapeFrame(mid, nodes, Some(node), lower);
      ShapeFrame(was, nodes, was[top].left, t.left.left);
      UpdateHeight(top, RotatedRight(t));
    }

    method LowerLeft(node: nat, ghost t: Tree) returns (top: nat)
      requires t.Node? && Shape(nodes, Some(node), t) && Once(InOrder(t)) && Height(t.left) > Height(t.right) + 1
      modifies this`nodes
      ensures Relinked(old(nodes), nodes, InOrder(t)) && Shape(nodes, Some(top), Rebalanced(t))
    {
      hide Shape, Once, InOrder, Height;
      ghost var was, now := nodes, t;
      OnceParts(t);
      HasHeight(t.left);
      ShapeOpens(nodes, Some(node), t);
      ShapeHeight(nodes, nodes[node].left, t.left);
      var left := nodes[node].left.value;
      ShapeOpens(nodes, Some(left), t.left);
      ShapeHeight(nodes, nodes[left].left, t.left.left);
      ShapeHeight(nodes, nodes[left].right, t.left.right);
      if HeightAt(nodes, nodes[left].left) < HeightAt(nodes, nodes[left].right) {
        HasHeight(t.left.right);
        var inner := RotateLeft(left, t.left);
        ShapeFrame(was, nodes, was[node].right, t.right);
        ghost var mid := nodes;
        nodes := nodes[node := nodes[node].(left := Some(inner))];
        now := Node(RotatedLeft(t.left), node, t.right);
        RotationsKeepOrder(t.left);
        ShapeFrame(mid, nodes, Some(inner), now.left);
        ShapeFrame(mid, nodes, nodes[node].right, now.right);
        SameOrder(t, now);
      }
      top := RotateRight(node, now);
    }

    method LowerRight(node: nat, ghost t: Tree) returns (top: nat)
      requires t.Node? && Shape(nodes, Some(node), t) && Once(InOrder(t)) && Height(t.right) > Height(t.left) + 1
      modifies this`nodes
      ensures Relinked(old(nodes), nodes, InOrder(t)) && Shape(nodes, Some(top), Rebalanced(t))
    {
      hide Shape, Once, InOrder, Height;
      ghost var was, now := nodes, t;
      OnceParts(t);
      HasHeight(t.right);
      ShapeOpens(nodes, Some(node), t);
      ShapeHeight(nodes, nodes[node].right, t.right);
      var right := nodes[node].right.value;
      ShapeOpens(nodes, Some(right), t.right);
      ShapeHeight(nodes, nodes[right].left, t.right.left);
      ShapeHeight(nodes, nodes[right].right, t.right.right);
      if HeightAt(nodes, nodes[right].left) > HeightAt(nodes, nodes[right].right) {
        HasHeight(t.right.left);
        var inner := RotateRight(right, t.right);
        ShapeFrame(was, nodes, was[node].left, t.left);
        ghost var mid := nodes;
        nodes := nodes[node := nodes[node].(right := Some(inner))];
        now := Node(t.left, node, RotatedRight(t.right));
        RotationsKeepOrder(t.right);
        ShapeFrame(mid, nodes, Some(inner), now.right);
        ShapeFrame(mid, nodes, nodes[node].left, now.left);
        SameOrder(t, now);
      }
      top := RotateLeft(node, now);
    }

    /** Heights first, and then at most two rotations. */
    method Rebalance(node: nat, ghost t: Tree) returns (top: nat)
      requires t.Node? && t.slot == node && ShapeBelow(nodes, t) && Once(InOrder(t))
      modifies this`nodes
      ensures Relinked(old(nodes), nodes, InOrder(t)) && Shape(nodes, Some(top), Rebalanced(t))
    {
      hide Shape, Once, InOrder, Height;
      OnceParts(t);
      UpdateHeight(node, t);
      ShapeOpens(nodes, Some(node), t);
      ShapeHeight(nodes, nodes[node].left, t.left);
      ShapeHeight(nodes, nodes[node].right, t.right);
      var leftHeight, rightHeight := HeightAt(nodes, nodes[node].left), HeightAt(nodes, nodes[node].right);
      if leftHeight > rightHeight + 1 {
        top := LowerLeft(node, t);
      } else if rightHeight > leftHeight + 1 {
        top := LowerRight(node, t);
      } else {
        top := node;
      }
    }

    /** The subtree takes its place below the parent, which is then rebalanced. */
    method Attach(parent: nat, direction: Direction, child: nat, ghost step: Step, ghost t: Tree) returns (top: nat)
      requires step.slot == parent && step.direction == direction && StepShape(nodes, step)
      requires Shape(nodes, Some(child), t) && Once(InOrder(Wrap(step, t)))
      modifies this`nodes
      ensures Relinked(old(nodes), nodes, InOrder(Wrap(step, t))) && Shape(nodes, Some(top), Rebalanced(Wrap(step, t)))
    {
      hide Shape, Once, InOrder, Height, Rebalanced;
      ghost var was, up := nodes, Wrap(step, t);
      OnceParts(up);
      match direction {
        case Left => nodes := nodes[parent := nodes[parent].(left := Some(child))];
        case Right => nodes := nodes[parent := nodes[parent].(right := Some(child))];
      }
      ShapeFrame(was, nodes, Some(child), t);
      ShapeFrame(was, nodes, if direction.Left? then was[parent].right else was[parent].left, step.other);
      top := Rebalance(parent, up);
    }

    /** The walk down to the key's node, or to where it is missing. The path never fills its array. */
    method WalkDown<V>(entries: seq<Entry<V>>, key: string, prefix: nat)
      returns (path: array<Option<(nat, Direction)>>, length: nat, hit: Option<nat>, ghost steps: seq<Step>)
      requires Valid(KeysOf(entries)) && IsByteString(key) && prefix == KeyPrefix(key) && |nodes| < U64
      ensures fresh(path) && length == |steps| <= path.Length && OnPath(path[..length], steps)
      ensures hit.Some? ==> hit.value < |nodes| && SlotKey(nodes, KeysOf(entries), hit.value) == key
      ensures hit.None? ==> Plug(steps, Leaf) == tree && PathShape(nodes, steps) &&
                            Between(nodes, KeysOf(entries), Lefts(steps), Rights(steps), key)
    {
      hide Shape, Before, KeyPrefix, InOrder, Balanced, IsByteString, Height, Lefts, Rights, PathShape, OnPath;
      path := new Option<(nat, Direction)>[MAX_PATH](_ => None);
      length, hit, steps := 0, None, [];
      var cursor := root;
      ghost var keys, order := KeysOf(entries), InOrder(tree);
      ghost var sub := tree;
      BalancedFits(tree);
      PathEnds();
      EmptyPath(nodes);
      while cursor.Some?
        invariant Shape(nodes, cursor, sub) && Plug(steps, sub) == tree && PathShape(nodes, steps)
        invariant length == |steps| <= path.Length && OnPath(path[..length], steps) && path.Length == MAX_PATH
        invariant Between(nodes, keys, Lefts(steps), Rights(steps), key)
        decreases sub
      {
        ShapeHeight(nodes, cursor, sub);
        ShapeOpens(nodes, cursor, sub);
        PlugParts(steps, sub);
        NodeLaw(sub);
        var node := nodes[cursor.value];
        PathInOrder(steps, sub, order);
        assert SlotKey(nodes, keys, sub.slot) == entries[node.position].key;
        CompareIsBefore(key, entries[node.position].key);
        match Compare(prefix, key, node.prefix, entries[node.position].key) {
          case Less =>
            path[length] := Some((cursor.value, Left));
            length := length + 1;
            PathPush(nodes, path[..length - 1], path[..length], steps, Step(sub.slot, Left, sub.right));
            GoLeft(nodes, keys, order, steps, sub, key);
            steps, sub := steps + [Step(sub.slot, Left, sub.right)], sub.left;
            cursor := node.left;
          case Equal =>
            hit := cursor;
            return;
          case Greater =>
            path[length] := Some((cursor.value, Right));
            length := length + 1;
            PathPush(nodes, path[..length - 1], path[..length], steps, Step(sub.slot, Right, sub.left));
            GoRight(nodes, keys, order, steps, sub, key);
            steps, sub := steps + [Step(sub.slot, Right, sub.left)], sub.right;
            cursor := node.right;
        }
      }
      ShapeHeight(nodes, cursor, sub);
    }

    /** Back up the path: each link to the subtree below, and each node rebalanced. */
    method WalkUp(path: array<Option<(nat, Direction)>>, length: nat, node: nat, ghost steps: seq<Step>)
      returns (top: nat, ghost t: Tree)
      requires length == |steps| <= path.Length && OnPath(path[..length], steps) && PathShape(nodes, steps)
      requires Shape(nodes, Some(node), Node(Leaf, node, Leaf)) && Balanced(Plug(steps, Leaf))
      requires Once(Lefts(steps) + [node] + Rights(steps))
      modifies this`nodes
      ensures Shape(nodes, Some(top), t) && Balanced(t) && InOrder(t) == Lefts(steps) + [node] + Rights(steps)
      ensures Relinked(old(nodes), nodes, InOrder(t))
    {
      hide Shape, Balanced, Once, InOrder, Height, Plug, Lefts, Rights, PathShape, Relinked;
      ghost var order, was := Lefts(steps) + [node] + Rights(steps), Leaf;
      top, t := node, Node(Leaf, node, Leaf);
      var left := length;
      NewLeaf(node);
      RelinkedSame(nodes, order);
      assert steps[..left] == steps;
      while left > 0
        invariant left <= length && Shape(nodes, Some(top), t) && PathShape(nodes, steps[..left])
        invariant Lefts(steps[..left]) + InOrder(t) + Rights(steps[..left]) == order
        invariant Balanced(t) && Balanced(Plug(steps[..left], was)) && Height(was) <= Height(t) <= Height(was) + 1
        invariant Relinked(old(nodes), nodes, order)
      {
        left := left - 1;
        var (parent, direction) := path[left].value;
        ghost var step, before := steps[left], nodes;
        assert path[..length][left] == path[left];
        assert steps[..left + 1][..left] == steps[..left] && steps[..left + 1][left] == step;
        LastStep(steps[..left + 1], t);
        LastStep(steps[..left + 1], was);
        PlugParts(steps[..left], Wrap(step, was));
        StepUp(step, was, t);
        OnceMiddle(Lefts(steps[..left]), InOrder(Wrap(step, t)), Rights(steps[..left]));
        PathAt(nodes, steps[..left + 1]);
        top := Attach(parent, direction, top, step, t);
        RebalancedKeepsOrder(Wrap(step, t));
        PathFrame(before, nodes, steps[..left], InOrder(Wrap(step, t)));
        RelinkedThen(old(nodes), before, nodes, order, InOrder(Wrap(step, t)));
        t, was := Rebalanced(Wrap(step, t)), Wrap(step, was);
      }
      assert steps[..left] == [];
      PathEnds();
      assert order == InOrder(t);
    }

    /** Reports or moves the position of a key that is there, or inserts a new node. `keys` are those the positions mean
        from now on. */
    method WalkInsert<V>(entries: seq<Entry<V>>, key: string, position: nat, report: bool, ghost keys: seq<string>)
      returns (existing: Option<nat>)
      requires Valid(KeysOf(entries)) && IsByteString(key) && |nodes| < U64
      requires KeysOf(entries) <= keys && position < |keys| && keys[position] == key
      modifies this
      ensures Valid(keys)
      ensures existing == if report && key in old(positions) then Some(old(positions)[key]) else None
      ensures positions == if existing.Some? then old(positions) else old(positions)[key := position]
      ensures existing.Some? ==> Valid(KeysOf(entries))
      ensures |nodes| == if key in old(positions) then |old(nodes)| else |old(nodes)| + 1
    {
      hide Shape, Before, KeyPrefix, InOrder, Balanced, IsByteString, Lefts, Rights, Plug, SlotKey, Keyed, SortedBy,
           Everywhere, Leads, PathShape, Between;
      var prefix := KeyPrefix(key);
      var path, length, hit, steps := WalkDown(entries, key, prefix);
      MoreKeys(nodes, KeysOf(entries), keys, InOrder(tree), positions);
      if hit.Some? {
        Known(nodes, keys, positions, hit.value);
        if report {
          return Some(nodes[hit.value].position);
        }
        ghost var was := nodes;
        nodes := nodes[hit.value := nodes[hit.value].(position := position)];
        SameLinks(was, nodes, root, tree);
        Repositioned(was, nodes, keys, hit.value, InOrder(tree), positions, position);
        positions := positions[key := position];
        return None;
      }
      NotThere(nodes, KeysOf(entries), steps, InOrder(tree), positions, key);
      ghost var was := nodes;
      var node := |nodes|;
      nodes := nodes + [IndexNode(position, prefix, None, None, 1)];
      PathGrows(was, nodes, steps);
      LeafShape(nodes, node);
      PlugOrder(steps, Leaf);
      NewLeaf(node);
      assert Lefts(steps) + [] + Rights(steps) == Lefts(steps) + Rights(steps);
      EverywhereOnce(was, Lefts(steps), Rights(steps));
      var top;
      ghost var mid := nodes;
      top, tree := WalkUp(path, length, node, steps);
      root := Some(top);
      MovedKeys(was, mid, nodes, position, prefix, InOrder(tree));
      Inserted(was, nodes, keys, Lefts(steps), Rights(steps), positions, position);
      positions := positions[key := position];
      return None;
    }
  }
}
