/** Runs: any sequence of operations on two trees that start out empty. */
module AvlRun {
  import opened Ordering
  import opened TreeNodes
  import opened TreeWalk
  import opened Positions
  import opened Search
  import opened BstInsert
  import opened InsertChecks
  import opened AvlTree
  import opened AvlOperations
  import opened AvlTransfer
  import opened AvlCheck

  /** The ways to insert a node; a hint or position is a node of the tree or its header. */
  datatype Way = Unique | UniqueHint(hint: Node) | EqualUpper | EqualLower | EqualHint(hint: Node)
               | Ahead(pos: Node) | Back | Front

  datatype Op = Insert(way: Way, n: Node) | Erase(n: Node) | MoveUnique(n: Node) | MoveEqual(n: Node)

  /** An operation on the first or the second tree; a node is moved there from the other one. */
  datatype Step = Step(onFirst: bool, op: Op)

  /** Where `n` stands in `s`, or the number of nodes. */
  ghost function IndexOf(s: seq<Node>, n: Node): (i: nat)
    ensures i <= |s| && (n in s ==> i < |s| && s[i] == n) && (n !in s ==> i == |s|)
  {
    if s == [] || s[0] == n then 0 else 1 + IndexOf(s[1..], n)
  }

  ghost predicate IsNew(comp: Comparator, s: seq<Node>, n: Node)
  {
    forall m <- s :: !Equivalent(comp, m, n.key)
  }

  ghost function PutLast(comp: Comparator, s: seq<Node>, n: Node): seq<Node>
  {
    RankFacts(s, NotGreater(comp, n.key));
    InsertedAt(s, Rank(s, NotGreater(comp, n.key)), n)
  }

  /** Where the caller chooses the place, only a place that fits the order will do. */
  ghost function PutAt(comp: Comparator, s: seq<Node>, i: nat, n: Node): seq<Node>
  {
    if FitsAt(comp, s, n.key, i) then InsertedAt(s, i, n) else s
  }

  /** What an insertion makes of the nodes of a tree. */
  ghost function Inserted(way: Way, comp: Comparator, s: seq<Node>, n: Node): seq<Node>
  {
    match way
    case Unique => if IsNew(comp, s, n) then PutLast(comp, s, n) else s
    case UniqueHint(hint) => if IsNew(comp, s, n) then PutLast(comp, s, n) else s
    case EqualUpper => PutLast(comp, s, n)
    case EqualLower =>
      RankFacts(s, Less(comp, n.key));
      InsertedAt(s, Rank(s, Less(comp, n.key)), n)
    case EqualHint(hint) =>
      RankFacts(s, NotGreater(comp, n.key));
      RankFacts(s, Less(comp, n.key));
      InsertedAt(s, EqualIndex(comp, s, n.key, IndexOf(s, hint)), n)
    case Ahead(pos) => PutAt(comp, s, IndexOf(s, pos), n)
    case Back => PutAt(comp, s, |s|, n)
    case Front => PutAt(comp, s, 0, n)
  }

  ghost predicate HintIn(way: Way, s: seq<Node>, header: Node)
  {
    match way
    case UniqueHint(hint) => hint in s || hint == header
    case EqualHint(hint) => hint in s || hint == header
    case Ahead(pos) => pos in s || pos == header
    case _ => true
  }

  /** What a step makes of the nodes of the tree it is about, and of those of the other one; a misuse is passed over. */
  ghost function Effect(op: Op, comp: Comparator, header: Node, a: seq<Node>, b: seq<Node>): (seq<Node>, seq<Node>)
  {
    match op
    case Insert(way, n) => if n !in a && n !in b && HintIn(way, a, header) then (Inserted(way, comp, a, n), b)
        else (a, b)
    case Erase(n) => (Without(a, n), b)
    case MoveUnique(n) => if n in b && IsNew(comp, a, n) then (PutLast(comp, a, n), Without(b, n)) else (a, b)
    case MoveEqual(n) => if n in b then (PutLast(comp, a, n), Without(b, n)) else (a, b)
  }

  /** What the first `k` steps leave. */
  ghost function Played(steps: seq<Step>, k: nat, comp: Comparator, h1: Node, h2: Node): (seq<Node>, seq<Node>)
    requires k <= |steps|
  {
    if k == 0 then ([], [])
    else
      var m := Played(steps, k - 1, comp, h1, h2);
      if steps[k - 1].onFirst then Effect(steps[k - 1].op, comp, h1, m.0, m.1)
      else var e := Effect(steps[k - 1].op, comp, h2, m.1, m.0); (e.1, e.0)
  }

  // ------------------------------------------------- what a step must come to

  /** `n` has been put into `s`, behind everything it is not less than. */
  ghost predicate Behind(comp: Comparator, s: seq<Node>, s': seq<Node>, n: Node)
  {
    exists j: nat :: PutBehind(comp, s, s', n, j)
  }

  ghost predicate PutBehind(comp: Comparator, s: seq<Node>, s': seq<Node>, n: Node, j: nat)
  {
    && j <= |s| && s' == s[..j] + [n] + s[j..]
    && (forall i :: 0 <= i < j ==> !comp(n.key, s[i].key)) && forall i :: j <= i < |s| ==> comp(n.key, s[i].key)
  }

  /** `n` has been put into `s`, in front of everything that is not less. */
  ghost predicate InFront(comp: Comparator, s: seq<Node>, s': seq<Node>, n: Node)
  {
    exists j: nat :: PutInFront(comp, s, s', n, j)
  }

  ghost predicate PutInFront(comp: Comparator, s: seq<Node>, s': seq<Node>, n: Node, j: nat)
  {
    && j <= |s| && s' == s[..j] + [n] + s[j..]
    && (forall i :: 0 <= i < j ==> comp(s[i].key, n.key)) && forall i :: j <= i < |s| ==> !comp(s[i].key, n.key)
  }

  /** `n` has been put into `s`, as near in front of index `i` as the order allows. */
  ghost predicate NearHint(comp: Comparator, s: seq<Node>, s': seq<Node>, n: Node, i: nat)
  {
    exists j: nat :: Nearest(comp, s, n.key, i, j) && j <= |s| && s' == s[..j] + [n] + s[j..]
  }

  /** `n` has been put into `s` at index `i` if the order allows just that. */
  ghost predicate IfItFits(comp: Comparator, s: seq<Node>, s': seq<Node>, n: Node, i: nat)
  {
    if FitsAt(comp, s, n.key, i) then s' == s[..i] + [n] + s[i..] else s' == s
  }

  /** `n` has been taken out of `s`. */
  ghost predicate TakenOut(s: seq<Node>, s': seq<Node>, n: Node)
  {
    exists j: nat :: j <= |s'| && s == s'[..j] + [n] + s'[j..]
  }

  /** What the ways to insert a node that is in neither tree come to. */
  ghost predicate InsertLaw(way: Way, comp: Comparator, s: seq<Node>, s': seq<Node>, n: Node)
  {
    match way
    case Unique => if exists m <- s :: Equivalent(comp, m, n.key) then s' == s else Behind(comp, s, s', n)
    case UniqueHint(_) => if exists m <- s :: Equivalent(comp, m, n.key) then s' == s else Behind(comp, s, s', n)
    case EqualUpper => Behind(comp, s, s', n)
    case EqualLower => InFront(comp, s, s', n)
    case EqualHint(hint) => NearHint(comp, s, s', n, IndexOf(s, hint))
    case Ahead(pos) => IfItFits(comp, s, s', n, IndexOf(s, pos))
    case Back => IfItFits(comp, s, s', n, |s|)
    case Front => IfItFits(comp, s, s', n, 0)
  }

  /** What an operation on the tree that holds `a` comes to, when the other tree holds `b`. */
  ghost predicate Lawful(op: Op, comp: Comparator, header: Node, a: seq<Node>, b: seq<Node>, a': seq<Node>,
                         b': seq<Node>)
  {
    match op
    case Insert(way, n) =>
      b' == b && if n in a || n in b || !HintIn(way, a, header) then a' == a else InsertLaw(way, comp, a, a', n)
    case Erase(n) => b' == b && if n in a then TakenOut(a, a', n) else a' == a
    case MoveUnique(n) =>
      if n !in b || exists m <- a :: Equivalent(comp, m, n.key) then a' == a && b' == b
      else Behind(comp, a, a', n) && TakenOut(b, b', n)
    case MoveEqual(n) =>
      if n !in b then a' == a && b' == b else Behind(comp, a, a', n) && TakenOut(b, b', n)
  }

  ghost predicate LawfulStep(step: Step, comp: Comparator, h1: Node, h2: Node, m: (seq<Node>, seq<Node>),
                             m': (seq<Node>, seq<Node>))
  {
    if step.onFirst then Lawful(step.op, comp, h1, m.0, m.1, m'.0, m'.1)
    else Lawful(step.op, comp, h2, m.1, m.0, m'.1, m'.0)
  }

  lemma LastIsBehind(comp: Comparator, s: seq<Node>, n: Node)
    requires StrictWeakOrder(comp) && Sorted(comp, s)
    ensures Behind(comp, s, PutLast(comp, s, n), n)
  {
    var j := Rank(s, NotGreater(comp, n.key));
    RanksFit(comp, s, n.key);
    RankFacts(s, NotGreater(comp, n.key));
    assert j < |s| ==> comp(n.key, s[j].key);
    assert PutBehind(comp, s, PutLast(comp, s, n), n, j);
  }

  lemma LowerIsInFront(comp: Comparator, s: seq<Node>, n: Node)
    requires StrictWeakOrder(comp) && Sorted(comp, s)
    ensures InFront(comp, s, Inserted(EqualLower, comp, s, n), n)
  {
    var j := Rank(s, Less(comp, n.key));
    RanksFit(comp, s, n.key);
    RankFacts(s, Less(comp, n.key));
    assert forall i :: 0 <= i < j ==> Less(comp, n.key)(s[i]);
    assert PutInFront(comp, s, Inserted(EqualLower, comp, s, n), n, j);
  }

  lemma HintIsNear(comp: Comparator, s: seq<Node>, n: Node, hint: Node)
    requires StrictWeakOrder(comp) && Sorted(comp, s)
    ensures NearHint(comp, s, Inserted(EqualHint(hint), comp, s, n), n, IndexOf(s, hint))
  {
    hide Nearest, FitsAt;
    EqualIndexNearest(comp, s, n.key, IndexOf(s, hint));
    EqualIndexFits(comp, s, n.key, IndexOf(s, hint));
    RankFacts(s, NotGreater(comp, n.key));
    RankFacts(s, Less(comp, n.key));
  }

  /** Every way of inserting comes to what it must. */
  lemma InsertedLawful(way: Way, comp: Comparator, s: seq<Node>, n: Node)
    requires StrictWeakOrder(comp) && Sorted(comp, s)
    ensures InsertLaw(way, comp, s, Inserted(way, comp, s, n), n)
  {
    hide Behind, InFront, NearHint, Sorted, StrictWeakOrder, Rank, PutLast;
    match way
    case Unique => LastIsBehind(comp, s, n);
    case UniqueHint(_) => LastIsBehind(comp, s, n);
    case EqualUpper => LastIsBehind(comp, s, n);
    case EqualLower => LowerIsInFront(comp, s, n);
    case EqualHint(hint) => HintIsNear(comp, s, n, hint);
    case Ahead(pos) => AtIfItFits(comp, s, n, IndexOf(s, pos));
    case Back => AtIfItFits(comp, s, n, |s|);
    case Front => AtIfItFits(comp, s, n, 0);
  }

  lemma AtIfItFits(comp: Comparator, s: seq<Node>, n: Node, i: nat)
    ensures IfItFits(comp, s, PutAt(comp, s, i, n), n, i)
  {
  }

  lemma {:induction false} WithoutTakenOut(s: seq<Node>, n: Node)
    requires n in s
    ensures TakenOut(s, Without(s, n), n)
  {
    var s' := Without(s, n);
    if s[0] == n {
      assert s == s'[..0] + [n] + s'[0..];
    } else {
      WithoutTakenOut(s[1..], n);
      var r := Without(s[1..], n);
      var j: nat :| j <= |r| && s[1..] == r[..j] + [n] + r[j..];
      BeforeFirst(s[0], r, j, n);
      assert s == [s[0]] + s[1..] && s' == [s[0]] + r;
    }
  }

  lemma BeforeFirst(m: Node, r: seq<Node>, j: nat, n: Node)
    requires j <= |r|
    ensures ([m] + r)[..j + 1] + [n] + ([m] + r)[j + 1..] == [m] + (r[..j] + [n] + r[j..])
  {
  }

  /** Every operation comes to what it must. */
  lemma EffectLawful(op: Op, comp: Comparator, header: Node, a: seq<Node>, b: seq<Node>)
    requires StrictWeakOrder(comp) && Sorted(comp, a)
    ensures var m := Effect(op, comp, header, a, b); Lawful(op, comp, header, a, b, m.0, m.1)
  {
    hide Behind, TakenOut, Sorted, StrictWeakOrder, Without, PutLast, Inserted, InsertLaw, HintIn;
    match op
    case Insert(way, n) => InsertedLawful(way, comp, a, n);
    case Erase(n) =>
      if n in a {
        WithoutTakenOut(a, n);
      } else {
        WithoutNone(a, n);
      }
    case MoveUnique(n) =>
      LastIsBehind(comp, a, n);
      if n in b {
        WithoutTakenOut(b, n);
      }
    case MoveEqual(n) =>
      LastIsBehind(comp, a, n);
      if n in b {
        WithoutTakenOut(b, n);
      }
  }

  // --------------------------------------------------- what a run must come to

  /** All the nodes of the two trees. */
  ghost function Held(m: (seq<Node>, seq<Node>)): multiset<Node>
  {
    multiset(m.0) + multiset(m.1)
  }

  lemma HeldFlip(m: (seq<Node>, seq<Node>))
    ensures Held((m.1, m.0)) == Held(m)
  {
  }

  lemma PutBag(s: seq<Node>, j: nat, n: Node)
    requires j <= |s|
    ensures multiset(s[..j] + [n] + s[j..]) == multiset(s) + multiset{n}
  {
    assert s == s[..j] + s[j..];
  }

  lemma BehindBag(comp: Comparator, s: seq<Node>, s': seq<Node>, n: Node)
    ensures Behind(comp, s, s', n) || InFront(comp, s, s', n) ==> multiset(s') == multiset(s) + multiset{n}
    ensures forall i :: NearHint(comp, s, s', n, i) ==> multiset(s') == multiset(s) + multiset{n}
    ensures TakenOut(s', s, n) ==> multiset(s') == multiset(s) + multiset{n}
    ensures forall i: nat ::
      i <= |s| && IfItFits(comp, s, s', n, i) ==> s' == s || multiset(s') == multiset(s) + multiset{n}
  {
    hide FitsAt, Nearest;
    forall j: nat | j <= |s| ensures multiset(s[..j] + [n] + s[j..]) == multiset(s) + multiset{n} {
      PutBag(s, j, n);
    }
  }

  /** An insertion adds its node or nothing, erasing takes its node or nothing away, and moving does neither. */
  lemma LawfulBag(op: Op, comp: Comparator, header: Node, a: seq<Node>, b: seq<Node>, a': seq<Node>, b': seq<Node>)
    requires Lawful(op, comp, header, a, b, a', b')
    ensures op.Insert? ==>
      Held((a', b')) == Held((a, b)) ||
      (op.n !in Held((a, b)) && Held((a', b')) == Held((a, b)) + multiset{op.n})
    ensures op.Erase? ==> Held((a', b')) + (if op.n in a then multiset{op.n} else multiset{}) == Held((a, b))
    ensures op.MoveUnique? || op.MoveEqual? ==> Held((a', b')) == Held((a, b))
  {
    hide Behind, InFront, NearHint, TakenOut, IfItFits;
    BehindBag(comp, a, a', op.n);
    BehindBag(comp, a', a, op.n);
    BehindBag(comp, b', b, op.n);
  }

  /** From step to step the two sequences change as they must, and they start out empty. */
  ghost predicate Follows(steps: seq<Step>, trace: seq<(seq<Node>, seq<Node>)>, comp: Comparator, h1: Node, h2: Node)
  {
    && |trace| == |steps| + 1 && trace[0] == ([], [])
    && forall k :: 0 <= k < |steps| ==> LawfulStep(steps[k], comp, h1, h2, trace[k], trace[k + 1])
  }

  ghost predicate ComesIn(step: Step, m: (seq<Node>, seq<Node>), m': (seq<Node>, seq<Node>), n: Node)
  {
    step.op.Insert? && step.op.n == n && n !in Held(m) && n in Held(m')
  }

  /** `n` is erased from the tree it is in. */
  ghost predicate GoesOut(step: Step, m: (seq<Node>, seq<Node>), n: Node)
  {
    step.op == Op.Erase(n) && n in if step.onFirst then m.0 else m.1
  }

  /** `n` comes in at step `i`, and is not erased before step `k`. */
  ghost predicate InSince(steps: seq<Step>, trace: seq<(seq<Node>, seq<Node>)>, n: Node, i: nat, k: nat)
    requires |trace| == |steps| + 1 && k <= |steps|
  {
    && i < k && ComesIn(steps[i], trace[i], trace[i + 1], n)
    && forall j :: i < j < k ==> !GoesOut(steps[j], trace[j], n)
  }

  /** What one step does to the membership of `n`. */
  lemma StepHolds(step: Step, comp: Comparator, h1: Node, h2: Node, m: (seq<Node>, seq<Node>),
                  m': (seq<Node>, seq<Node>), n: Node)
    requires LawfulStep(step, comp, h1, h2, m, m') && Held(m)[n] <= 1
    ensures Held(m')[n] <= 1
    ensures n in Held(m') <==> ComesIn(step, m, m', n) || (n in Held(m) && !GoesOut(step, m, n))
  {
    hide Lawful;
    if step.onFirst {
      LawfulBag(step.op, comp, h1, m.0, m.1, m'.0, m'.1);
    } else {
      LawfulBag(step.op, comp, h2, m.1, m.0, m'.1, m'.0);
      HeldFlip(m);
      HeldFlip(m');
    }
  }

  /** The trees hold exactly the nodes that have been inserted and not erased since, and each of them once. */
  lemma {:induction false} HeldIff(steps: seq<Step>, trace: seq<(seq<Node>, seq<Node>)>, comp: Comparator, h1: Node,
                                   h2: Node, n: Node, k: nat)
    requires Follows(steps, trace, comp, h1, h2) && k <= |steps|
    ensures Held(trace[k])[n] <= 1
    ensures n in Held(trace[k]) <==> exists i: nat :: InSince(steps, trace, n, i, k)
  {
    hide LawfulStep, ComesIn, GoesOut;
    if k > 0 {
      HeldIff(steps, trace, comp, h1, h2, n, k - 1);
      StepHolds(steps[k - 1], comp, h1, h2, trace[k - 1], trace[k], n);
      if ComesIn(steps[k - 1], trace[k - 1], trace[k], n) {
        assert InSince(steps, trace, n, k - 1, k);
      } else if n in Held(trace[k]) {
        var i: nat :| InSince(steps, trace, n, i, k - 1);
        assert InSince(steps, trace, n, i, k);
      }
      if i: nat :| InSince(steps, trace, n, i, k) {
        assert i < k - 1 ==> InSince(steps, trace, n, i, k - 1);
      }
    }
  }

  // --------------------------------------------------------- one insertion

  /** One tree with an order, in a store that knows `n`. */
  ghost predicate Ready(g: Store, t: Tree, header: Node, comp: Comparator, n: Node)
  {
    && AvlValid(g, t, header) && StrictWeakOrder(comp) && Sorted(comp, InOrder(t))
    && n in g.nodes && n != header && n !in Nodes(t)
  }

  /** The tree after the insertion, whether or not the node has gone in. */
  ghost predicate Settled(g: Store, g': Store, t: Tree, t': Tree, header: Node, comp: Comparator, n: Node,
                          s: seq<Node>, inserted: bool)
  {
    && AvlValid(g', t', header) && Sorted(comp, s) && InOrder(t') == s
    && Untouched(g, g', Nodes(t) + {n}, header) && Nodes(t') == if inserted then Nodes(t) + {n} else Nodes(t)
  }

  lemma Unsettled(g: Store, t: Tree, header: Node, comp: Comparator, n: Node)
    requires Ready(g, t, header, comp, n)
    ensures Settled(g, g, t, t, header, comp, n, InOrder(t), false)
  {
  }

  lemma ReadyParts(g: Store, t: Tree, header: Node, comp: Comparator, n: Node)
    requires Ready(g, t, header, comp, n)
    ensures Valid(g, t, header) && AvlValid(g, t, header) && StrictWeakOrder(comp) && Sorted(comp, InOrder(t))
    ensures n in g.nodes && n != header && n !in Nodes(t)
    ensures IsNew(comp, InOrder(t), n) <==> forall m <- InOrder(t) :: !Equivalent(comp, m, n.key)
  {
  }

  /** The node has gone in at its index. */
  lemma SettledAt(g: Store, g': Store, t: Tree, t': Tree, header: Node, comp: Comparator, n: Node, s: seq<Node>)
    requires Ready(g, t, header, comp, n) && AvlValid(g', t', header) && Untouched(g, g', Nodes(t) + {n}, header)
    requires InOrder(t') == s && Sorted(comp, s) && Nodes(t') == Nodes(t) + {n}
    ensures Settled(g, g', t, t', header, comp, n, s, true)
  {
  }

  lemma PutLastIs(comp: Comparator, s: seq<Node>, s': seq<Node>, n: Node)
    requires InsertedLast(comp, s, s', n)
    ensures s' == PutLast(comp, s, n) && Sorted(comp, s')
  {
  }

  lemma FitsNeighbours(comp: Comparator, s: seq<Node>, key: Key, i: nat)
    requires StrictWeakOrder(comp) && Sorted(comp, s) && i <= |s|
    ensures FitsAt(comp, s, key, i) <==> (i < |s| ==> !comp(s[i].key, key)) && (i > 0 ==> !comp(key, s[i - 1].key))
  {
  }

  /** Whether a key may stand before `pos`. */
  method FitsHere(header: Node, pos: Node, key: Key, comp: Comparator, ghost g: Store, ghost t: Tree, ghost i: nat)
    returns (fits: bool)
    requires Matches(g) && AvlValid(g, t, header) && StrictWeakOrder(comp) && Sorted(comp, InOrder(t))
    requires i <= |InOrder(t)| && pos == NodeAt(InOrder(t), i, header)
    ensures fits <==> FitsAt(comp, InOrder(t), key, i)
  {
    FitsNeighbours(comp, InOrder(t), key, i);
    HintPlace(g, t, header, i);
    OrderedNodes(t);
    fits := pos == header || !comp(pos.key, key);
    if fits && pos != header.left {
      var prev := Prev(pos, header, g, t, i);
      fits := !comp(key, prev.key);
    }
  }

  method InsertUniqueWay(header: Node, n: Node, comp: Comparator, ghost g: Store, ghost t: Tree)
    returns (inserted: bool, ghost g': Store, ghost t': Tree)
    requires Matches(g) && Ready(g, t, header, comp, n)
    modifies g.nodes
    ensures Matches(g') && Settled(g, g', t, t', header, comp, n, Inserted(Unique, comp, InOrder(t), n), inserted)
  {
    hide AvlValid, Ready, Settled, Untouched, Rank, Sorted, InOrder, Nodes, PutLast, InsertedLast, IsNew;
    ReadyParts(g, t, header, comp, n);
    var d := CommitData(false, header);
    var present;
    present, inserted, d := InsertUniqueCheck(header, n.key, comp, d, g, t);
    g', t' := g, t;
    if inserted {
      g', t' := InsertUniqueCommit(header, n, d, comp, g, t);
      PutLastIs(comp, InOrder(t), InOrder(t'), n);
      SettledAt(g, g', t, t', header, comp, n, InOrder(t'));
    } else {
      Unsettled(g, t, header, comp, n);
    }
  }

  method InsertHintWay(header: Node, hint: Node, n: Node, comp: Comparator, ghost g: Store, ghost t: Tree)
    returns (inserted: bool, ghost g': Store, ghost t': Tree)
    requires Matches(g) && Ready(g, t, header, comp, n) && (hint in InOrder(t) || hint == header)
    modifies g.nodes
    ensures Matches(g') && Settled(g, g', t, t', header, comp, n, Inserted(UniqueHint(hint), comp, InOrder(t), n),
                                   inserted)
  {
    hide AvlValid, Ready, Settled, Untouched, Rank, Sorted, InOrder, Nodes, PutLast, InsertedLast, IsNew;
    ReadyParts(g, t, header, comp, n);
    HintAt(g, t, header, hint);
    var d := CommitData(false, header);
    var present;
    present, inserted, d := InsertUniqueCheckHint(header, hint, n.key, comp, d, g, t, IndexOf(InOrder(t), hint));
    g', t' := g, t;
    if inserted {
      g', t' := InsertUniqueCommit(header, n, d, comp, g, t);
      PutLastIs(comp, InOrder(t), InOrder(t'), n);
      SettledAt(g, g', t, t', header, comp, n, InOrder(t'));
    } else {
      Unsettled(g, t, header, comp, n);
    }
  }

  lemma HintAt(g: Store, t: Tree, header: Node, hint: Node)
    requires AvlValid(g, t, header) && (hint in InOrder(t) || hint == header)
    ensures IndexOf(InOrder(t), hint) <= |InOrder(t)| && hint == NodeAt(InOrder(t), IndexOf(InOrder(t), hint), header)
  {
    OrderedNodes(t);
  }

  method InsertAtWay(header: Node, pos: Node, n: Node, comp: Comparator, ghost g: Store, ghost t: Tree)
    returns (inserted: bool, ghost g': Store, ghost t': Tree)
    requires Matches(g) && Ready(g, t, header, comp, n) && (pos in InOrder(t) || pos == header)
    modifies g.nodes
    ensures Matches(g') && Settled(g, g', t, t', header, comp, n, Inserted(Ahead(pos), comp, InOrder(t), n), inserted)
  {
    hide AvlValid, Ready, Settled, Untouched, Sorted, InOrder, Nodes, FitsAt;
    ReadyParts(g, t, header, comp, n);
    HintAt(g, t, header, pos);
    ghost var i := IndexOf(InOrder(t), pos);
    inserted := FitsHere(header, pos, n.key, comp, g, t, i);
    g', t' := g, t;
    if inserted {
      FitsSorted(comp, InOrder(t), n, i);
      g', t' := InsertBefore(header, pos, n, g, t, i);
      SettledAt(g, g', t, t', header, comp, n, InOrder(t'));
    } else {
      Unsettled(g, t, header, comp, n);
    }
  }

  method InsertEqualWay(header: Node, n: Node, upper: bool, comp: Comparator, ghost g: Store, ghost t: Tree)
    returns (ghost g': Store, ghost t': Tree)
    requires Matches(g) && Ready(g, t, header, comp, n)
    modifies g.nodes
    ensures Matches(g')
    ensures Settled(g, g', t, t', header, comp, n,
                    Inserted(if upper then EqualUpper else EqualLower, comp, InOrder(t), n), true)
  {
    hide AvlValid, Ready, Settled, Untouched, Rank, Sorted, InOrder, Nodes, PutLast, InsertedLast;
    ReadyParts(g, t, header, comp, n);
    if upper {
      g', t' := InsertEqualUpperBound(header, n, comp, g, t);
      PutLastIs(comp, InOrder(t), InOrder(t'), n);
    } else {
      g', t' := InsertEqualLowerBound(header, n, comp, g, t);
    }
    SettledAt(g, g', t, t', header, comp, n, InOrder(t'));
  }

  method InsertEqualHintWay(header: Node, hint: Node, n: Node, comp: Comparator, ghost g: Store, ghost t: Tree)
    returns (ghost g': Store, ghost t': Tree)
    requires Matches(g) && Ready(g, t, header, comp, n) && (hint in InOrder(t) || hint == header)
    modifies g.nodes
    ensures Matches(g') && Settled(g, g', t, t', header, comp, n, Inserted(EqualHint(hint), comp, InOrder(t), n), true)
  {
    hide AvlValid, Ready, Settled, Untouched, Rank, Sorted, InOrder, Nodes, EqualIndex;
    ReadyParts(g, t, header, comp, n);
    HintAt(g, t, header, hint);
    ghost var i, j := IndexOf(InOrder(t), hint), 0;
    g', t', j := InsertEqual(header, hint, n, comp, g, t, i);
    EqualIndexNearest(comp, InOrder(t), n.key, i);
    NearestOnly(comp, InOrder(t), n.key, i, j, EqualIndex(comp, InOrder(t), n.key, i));
    SettledAt(g, g', t, t', header, comp, n, InOrder(t'));
  }

  /** At one of the two ends, if the order allows it. */
  method InsertEndWay(header: Node, n: Node, back: bool, comp: Comparator, ghost g: Store, ghost t: Tree)
    returns (inserted: bool, ghost g': Store, ghost t': Tree)
    requires Matches(g) && Ready(g, t, header, comp, n)
    modifies g.nodes
    ensures Matches(g')
    ensures Settled(g, g', t, t', header, comp, n, Inserted(if back then Back else Front, comp, InOrder(t), n),
                    inserted)
  {
    hide AvlValid, Ready, Settled, Untouched, Sorted, InOrder, Nodes, FitsAt;
    ReadyParts(g, t, header, comp, n);
    ghost var i := if back then |InOrder(t)| else 0;
    EndAt(g, t, header);
    inserted := FitsHere(header, if back then header else header.left, n.key, comp, g, t, i);
    g', t' := g, t;
    if inserted {
      FitsSorted(comp, InOrder(t), n, i);
      AtEnds(InOrder(t), n);
      if back {
        g', t' := PushBack(header, n, g, t);
      } else {
        g', t' := PushFront(header, n, g, t);
      }
      SettledAt(g, g', t, t', header, comp, n, InOrder(t'));
    } else {
      Unsettled(g, t, header, comp, n);
    }
  }

  lemma EndAt(g: Store, t: Tree, header: Node)
    requires Matches(g) && Valid(g, t, header)
    ensures header.left != null && header.left == NodeAt(InOrder(t), 0, header)
        && header == NodeAt(InOrder(t), |InOrder(t)|, header)
  {
  }

  lemma AtEnds(s: seq<Node>, n: Node)
    ensures InsertedAt(s, |s|, n) == s + [n] && InsertedAt(s, 0, n) == [n] + s
  {
  }

  /** An insertion in whatever way. */
  method InsertOne(header: Node, way: Way, n: Node, comp: Comparator, ghost g: Store, ghost t: Tree)
    returns (inserted: bool, ghost g': Store, ghost t': Tree)
    requires Matches(g) && Ready(g, t, header, comp, n) && HintIn(way, InOrder(t), header)
    modifies g.nodes
    ensures Matches(g') && Settled(g, g', t, t', header, comp, n, Inserted(way, comp, InOrder(t), n), inserted)
  {
    hide Ready, Settled, Inserted, InOrder;
    match way
    case Unique => inserted, g', t' := InsertUniqueWay(header, n, comp, g, t);
    case UniqueHint(hint) => inserted, g', t' := InsertHintWay(header, hint, n, comp, g, t);
    case EqualUpper =>
      g', t' := InsertEqualWay(header, n, true, comp, g, t);
      inserted := true;
    case EqualLower =>
      g', t' := InsertEqualWay(header, n, false, comp, g, t);
      inserted := true;
    case EqualHint(hint) =>
      g', t' := InsertEqualHintWay(header, hint, n, comp, g, t);
      inserted := true;
    case Ahead(pos) => inserted, g', t' := InsertAtWay(header, pos, n, comp, g, t);
    case Back => inserted, g', t' := InsertEndWay(header, n, true, comp, g, t);
    case Front => inserted, g', t' := InsertEndWay(header, n, false, comp, g, t);
  }

  // ------------------------------------------------------------ one step

  /** Between steps: two valid trees in order, and what is known of their nodes. */
  ghost predicate Standing(g: Store, t1: Tree, h1: Node, t2: Tree, h2: Node, comp: Comparator, own: set<Node>,
                           other: set<Node>)
  {
    && TwoTrees(g, t1, h1, t2, h2) && StrictWeakOrder(comp) && Sorted(comp, InOrder(t1)) && Sorted(comp, InOrder(t2))
    && own == Nodes(t1) && other == Nodes(t2)
  }

  /** What a step leaves, and that nothing else has changed. */
  ghost predicate Stepped(g: Store, g': Store, t1: Tree, t2: Tree, h1: Node, h2: Node, comp: Comparator, n: Node,
                          own: set<Node>, other: set<Node>, t1': Tree, t2': Tree, m: (seq<Node>, seq<Node>))
  {
    && Standing(g', t1', h1, t2', h2, comp, own, other) && (InOrder(t1'), InOrder(t2')) == m
    && UntouchedBut(g, g', Nodes(t1) + Nodes(t2) + {n}, h1, h2)
  }

  lemma NoStep(g: Store, t1: Tree, t2: Tree, h1: Node, h2: Node, comp: Comparator, n: Node, own: set<Node>,
               other: set<Node>)
    requires Standing(g, t1, h1, t2, h2, comp, own, other)
    ensures Stepped(g, g, t1, t2, h1, h2, comp, n, own, other, t1, t2, (InOrder(t1), InOrder(t2)))
  {
  }

  lemma StandingParts(g: Store, t1: Tree, h1: Node, t2: Tree, h2: Node, comp: Comparator, own: set<Node>,
                      other: set<Node>)
    requires Standing(g, t1, h1, t2, h2, comp, own, other)
    ensures TwoTrees(g, t1, h1, t2, h2) && AvlValid(g, t1, h1) && StrictWeakOrder(comp) && Sorted(comp, InOrder(t1))
        && Sorted(comp, InOrder(t2))
    ensures own == Nodes(t1) && other == Nodes(t2) && (forall n :: n in own <==> n in InOrder(t1))
        && forall n :: n in other <==> n in InOrder(t2)
  {
    OrderedNodes(t1);
    OrderedNodes(t2);
  }

  lemma OutsideReady(g: Store, t1: Tree, h1: Node, t2: Tree, h2: Node, comp: Comparator, own: set<Node>,
                     other: set<Node>, n: Node)
    requires Standing(g, t1, h1, t2, h2, comp, own, other) && n in g.nodes && n != h1 && n !in own
    ensures Ready(g, t1, h1, comp, n)
  {
  }

  /** The other tree does not notice what happens to one of them. */
  lemma OtherStands(g: Store, g': Store, t1: Tree, t1': Tree, h1: Node, t2: Tree, h2: Node, ns: set<Node>)
    requires TwoTrees(g, t1, h1, t2, h2) && AvlValid(g', t1', h1) && Untouched(g, g', ns, h1) && Nodes(t1') <= ns
    requires ns !! Nodes(t2) && h2 !in ns
    ensures TwoTrees(g', t1', h1, t2, h2)
  {
    AvlAway(g, g', ns, h1, t2, h2);
  }

  lemma InsertSteps(g: Store, g': Store, t1: Tree, t1': Tree, h1: Node, t2: Tree, h2: Node, comp: Comparator, n: Node,
                    own: set<Node>, other: set<Node>, s: seq<Node>, inserted: bool)
    requires Standing(g, t1, h1, t2, h2, comp, own, other) && n != h1 && n != h2 && n !in own && n !in other
    requires Settled(g, g', t1, t1', h1, comp, n, s, inserted)
    ensures Stepped(g, g', t1, t2, h1, h2, comp, n, if inserted then own + {n}
                    else own, other, t1', t2, (s, InOrder(t2)))
  {
    OtherStands(g, g', t1, t1', h1, t2, h2, Nodes(t1) + {n});
  }

  lemma EraseSteps(g: Store, g': Store, t1: Tree, t1': Tree, h1: Node, t2: Tree, h2: Node, comp: Comparator, n: Node,
                   own: set<Node>, other: set<Node>)
    requires Standing(g, t1, h1, t2, h2, comp, own, other) && n in own
    requires AvlValid(g', t1', h1) && Untouched(g, g', Nodes(t1), h1) && OrderKept(InOrder(t1), InOrder(t1'))
        && Nodes(t1') == Nodes(t1) - {n}
    ensures Stepped(g, g', t1, t2, h1, h2, comp, n, own - {n}, other, t1', t2, (InOrder(t1'), InOrder(t2)))
  {
    OtherStands(g, g', t1, t1', h1, t2, h2, Nodes(t1));
  }

  lemma MoveSteps(g: Store, g': Store, t1: Tree, t1': Tree, h1: Node, t2: Tree, t2': Tree, h2: Node, comp: Comparator,
                  n: Node,
                  own: set<Node>, other: set<Node>)
    requires Standing(g, t1, h1, t2, h2, comp, own, other) && n in other
    requires TwoTrees(g', t1', h1, t2', h2) && UntouchedBut(g, g', Nodes(t1) + Nodes(t2), h1, h2)
        && Moved(comp, t1, t2, n, t1', t2')
    ensures Stepped(g, g', t1, t2, h1, h2, comp, n, own + {n}, other - {n}, t1', t2',
                    (PutLast(comp, InOrder(t1), n), Without(InOrder(t2), n)))
  {
  }

  lemma {:induction false} WithoutNone(s: seq<Node>, n: Node)
    requires n !in s
    ensures Without(s, n) == s
  {
    if s != [] {
      WithoutNone(s[1..], n);
    }
  }

  predicate HintKnown(way: Way, own: set<Node>, header: Node)
  {
    match way
    case UniqueHint(hint) => hint in own || hint == header
    case EqualHint(hint) => hint in own || hint == header
    case Ahead(pos) => pos in own || pos == header
    case _ => true
  }

  method InsertStep(way: Way, n: Node, h1: Node, h2: Node, comp: Comparator, own: set<Node>, other: set<Node>,
                    ghost g: Store, ghost t1: Tree, ghost t2: Tree)
    returns (own': set<Node>, ghost g': Store, ghost t1': Tree)
    requires Matches(g) && Standing(g, t1, h1, t2, h2, comp, own, other) && n in g.nodes && n != h1 && n != h2
    modifies g.nodes
    ensures Matches(g')
    ensures Stepped(g, g', t1, t2, h1, h2, comp, n, own', other, t1', t2,
                    Effect(Insert(way, n), comp, h1, InOrder(t1), InOrder(t2)))
  {
    hide Standing, Stepped, Ready, Settled, Inserted, InOrder, Nodes, TwoTrees, Sorted, AvlValid;
    StandingParts(g, t1, h1, t2, h2, comp, own, other);
    own', g', t1' := own, g, t1;
    if n !in own && n !in other && HintKnown(way, own, h1) {
      OutsideReady(g, t1, h1, t2, h2, comp, own, other, n);
      var inserted;
      inserted, g', t1' := InsertOne(h1, way, n, comp, g, t1);
      InsertSteps(g, g', t1, t1', h1, t2, h2, comp, n, own, other, Inserted(way, comp, InOrder(t1), n), inserted);
      if inserted {
        own' := own + {n};
      }
    } else {
      NoStep(g, t1, t2, h1, h2, comp, n, own, other);
    }
  }

  method EraseStep(n: Node, h1: Node, ghost h2: Node, ghost comp: Comparator, own: set<Node>, ghost other: set<Node>,
                   ghost g: Store, ghost t1: Tree, ghost t2: Tree)
    returns (own': set<Node>, ghost g': Store, ghost t1': Tree)
    requires Matches(g) && Standing(g, t1, h1, t2, h2, comp, own, other)
    modifies g.nodes
    ensures Matches(g')
    ensures Stepped(g, g', t1, t2, h1, h2, comp, n, own', other, t1', t2,
                    Effect(Op.Erase(n), comp, h1, InOrder(t1), InOrder(t2)))
  {
    hide Standing, Stepped, InOrder, Nodes, TwoTrees, Sorted, AvlValid, Untouched, Without, OrderKept;
    StandingParts(g, t1, h1, t2, h2, comp, own, other);
    own', g', t1' := own, g, t1;
    if n in own {
      g', t1' := AvlTree.Erase(h1, n, g, t1);
      EraseSteps(g, g', t1, t1', h1, t2, h2, comp, n, own, other);
      own' := own - {n};
    } else {
      WithoutNone(InOrder(t1), n);
      NoStep(g, t1, t2, h1, h2, comp, n, own, other);
    }
  }

  method MoveStep(n: Node, unique: bool, h1: Node, h2: Node, comp: Comparator, own: set<Node>, other: set<Node>,
                  ghost g: Store, ghost t1: Tree, ghost t2: Tree)
    returns (own': set<Node>, other': set<Node>, ghost g': Store, ghost t1': Tree, ghost t2': Tree)
    requires Matches(g) && Standing(g, t1, h1, t2, h2, comp, own, other)
    modifies g.nodes
    ensures Matches(g')
    ensures Stepped(g, g', t1, t2, h1, h2, comp, n, own', other', t1', t2',
                    Effect(if unique then MoveUnique(n) else MoveEqual(n), comp, h1, InOrder(t1), InOrder(t2)))
  {
    hide Standing, Stepped, InOrder, Nodes, TwoTrees, Sorted, AvlValid, UntouchedBut, Without, Moved, PutLast;
    StandingParts(g, t1, h1, t2, h2, comp, own, other);
    own', other', g', t1', t2' := own, other, g, t1, t2;
    var moved := n in other;
    if moved {
      if unique {
        moved, g', t1', t2' := TransferUnique(h1, comp, h2, n, g, t1, t2);
      } else {
        g', t1', t2' := TransferEqual(h1, comp, h2, n, g, t1, t2);
      }
    }
    if moved {
      MoveSteps(g, g', t1, t1', h1, t2, t2', h2, comp, n, own, other);
      own', other' := own + {n}, other - {n};
    } else {
      NoStep(g, t1, t2, h1, h2, comp, n, own, other);
    }
  }

  /** One step on the tree of `h1`. */
  method StepHere(op: Op, h1: Node, h2: Node, comp: Comparator, own: set<Node>, other: set<Node>,
                  ghost g: Store, ghost t1: Tree, ghost t2: Tree)
    returns (own': set<Node>, other': set<Node>, ghost g': Store, ghost t1': Tree, ghost t2': Tree)
    requires Matches(g) && Standing(g, t1, h1, t2, h2, comp, own, other) && op.n in g.nodes && op.n != h1 && op.n != h2
    modifies g.nodes
    ensures Matches(g')
    ensures Stepped(g, g', t1, t2, h1, h2, comp, op.n, own', other', t1', t2',
                    Effect(op, comp, h1, InOrder(t1), InOrder(t2)))
  {
    hide Standing, Stepped, Effect, InOrder;
    other', t2' := other, t2;
    match op
    case Insert(way, n) => own', g', t1' := InsertStep(way, n, h1, h2, comp, own, other, g, t1, t2);
    case Erase(n) => own', g', t1' := EraseStep(n, h1, h2, comp, own, other, g, t1, t2);
    case MoveUnique(n) => own', other', g', t1', t2' := MoveStep(n, true, h1, h2, comp, own, other, g, t1, t2);
    case MoveEqual(n) => own', other', g', t1', t2' := MoveStep(n, false, h1, h2, comp, own, other, g, t1, t2);
  }

  // --------------------------------------------------------------- all steps

  lemma StandingFlip(g: Store, t1: Tree, h1: Node, t2: Tree, h2: Node, comp: Comparator, own: set<Node>,
                     other: set<Node>)
    requires Standing(g, t1, h1, t2, h2, comp, own, other)
    ensures Standing(g, t2, h2, t1, h1, comp, other, own)
  {
  }

  lemma SteppedParts(g: Store, g': Store, t1: Tree, t2: Tree, h1: Node, h2: Node, comp: Comparator, n: Node,
                     own: set<Node>, other: set<Node>, t1': Tree, t2': Tree, m: (seq<Node>, seq<Node>))
    requires Stepped(g, g', t1, t2, h1, h2, comp, n, own, other, t1', t2', m)
    ensures Standing(g', t1', h1, t2', h2, comp, own, other) && (InOrder(t1'), InOrder(t2')) == m && g'.nodes == g.nodes
  {
  }

  /** The steps use nodes that the store knows, and not the headers. */
  ghost predicate Playable(steps: seq<Step>, g: Store, h1: Node, h2: Node)
  {
    forall k :: 0 <= k < |steps| ==> steps[k].op.n in g.nodes && steps[k].op.n != h1 && steps[k].op.n != h2
  }

  lemma PlayableAt(steps: seq<Step>, g: Store, h1: Node, h2: Node, k: nat)
    requires Playable(steps, g, h1, h2) && k < |steps|
    ensures steps[k].op.n in g.nodes && steps[k].op.n != h1 && steps[k].op.n != h2
  {
  }

  lemma PlayedNone(steps: seq<Step>, comp: Comparator, h1: Node, h2: Node)
    ensures Played(steps, 0, comp, h1, h2) == (InOrder(Leaf), InOrder(Leaf))
  {
  }

  /** One step on either tree. */
  method PlayOne(step: Step, h1: Node, h2: Node, comp: Comparator, own: set<Node>, other: set<Node>,
                 ghost g: Store, ghost t1: Tree, ghost t2: Tree, ghost steps: seq<Step>, ghost k: nat)
    returns (own': set<Node>, other': set<Node>, ghost g': Store, ghost t1': Tree, ghost t2': Tree)
    requires Matches(g) && Standing(g, t1, h1, t2, h2, comp, own, other) && k < |steps| && step == steps[k]
    requires step.op.n in g.nodes && step.op.n != h1 && step.op.n != h2
        && (InOrder(t1), InOrder(t2)) == Played(steps, k, comp, h1, h2)
    modifies g.nodes
    ensures Matches(g') && Standing(g', t1', h1, t2', h2, comp, own', other') && g'.nodes == g.nodes
    ensures (InOrder(t1'), InOrder(t2')) == Played(steps, k + 1, comp, h1, h2)
    ensures LawfulStep(step, comp, h1, h2, (InOrder(t1), InOrder(t2)), (InOrder(t1'), InOrder(t2')))
  {
    hide Standing, Stepped, Effect, InOrder, Lawful, Sorted, StrictWeakOrder, TwoTrees, AvlValid;
    StandingParts(g, t1, h1, t2, h2, comp, own, other);
    if step.onFirst {
      EffectLawful(step.op, comp, h1, InOrder(t1), InOrder(t2));
      own', other', g', t1', t2' := StepHere(step.op, h1, h2, comp, own, other, g, t1, t2);
      SteppedParts(g, g', t1, t2, h1, h2, comp, step.op.n, own', other', t1', t2',
                   Effect(step.op, comp, h1, InOrder(t1), InOrder(t2)));
    } else {
      EffectLawful(step.op, comp, h2, InOrder(t2), InOrder(t1));
      StandingFlip(g, t1, h1, t2, h2, comp, own, other);
      other', own', g', t2', t1' := StepHere(step.op, h2, h1, comp, other, own, g, t2, t1);
      SteppedParts(g, g', t2, t1, h2, h1, comp, step.op.n, other', own', t2', t1',
                   Effect(step.op, comp, h2, InOrder(t2), InOrder(t1)));
      StandingFlip(g', t2', h2, t1', h1, comp, other', own');
    }
  }

  method BeginRun(h1: Node, h2: Node, ghost comp: Comparator, ghost g: Store) returns (ghost g': Store)
    requires Matches(g) && h1 in g.nodes && h2 in g.nodes && h1 != h2 && StrictWeakOrder(comp)
    modifies h1, h2
    ensures Matches(g') && g'.nodes == g.nodes && Standing(g', Leaf, h1, Leaf, h2, comp, {}, {})
  {
    g' := InitHeader(h1, g);
    g' := InitHeader(h2, g');
  }

  /**
   Plays any steps on two trees that start out empty.  Both trees stay linked, balanced and in order, every step does to
   them what it must, they hold exactly the nodes inserted and not erased since,
       and neither is higher than its number of
   nodes allows.
   */
  method Run(steps: seq<Step>, h1: Node, h2: Node, comp: Comparator, ghost g: Store)
    returns (ghost g': Store, ghost t1: Tree, ghost t2: Tree, ghost trace: seq<(seq<Node>, seq<Node>)>)
    requires Matches(g) && h1 in g.nodes && h2 in g.nodes && h1 != h2 && StrictWeakOrder(comp)
        && Playable(steps, g, h1, h2)
    modifies g.nodes
    ensures Matches(g') && TwoTrees(g', t1, h1, t2, h2) && AvlValid(g', t1, h1) && AvlValid(g', t2, h2)
    ensures Sorted(comp, InOrder(t1)) && Sorted(comp, InOrder(t2))
    ensures Follows(steps, trace, comp, h1, h2) && trace[|steps|] == (InOrder(t1), InOrder(t2))
    ensures forall n <- g.nodes ::
      n in InOrder(t1) || n in InOrder(t2) <==> exists i: nat :: InSince(steps, trace, n, i, |steps|)
    ensures (InOrder(t1), InOrder(t2)) == Played(steps, |steps|, comp, h1, h2)
    ensures |InOrder(t1)| + 1 >= Fib(Height(t1) + 2) && |InOrder(t2)| + 1 >= Fib(Height(t2) + 2)
  {
    hide *;
    PlayedNone(steps, comp, h1, h2);
    g' := BeginRun(h1, h2, comp, g);
    t1, t2 := Leaf, Leaf;
    trace := [(InOrder(t1), InOrder(t2))];
    var own, other: set<Node> := {}, {};
    for k := 0 to |steps|
      invariant Matches(g') && g'.nodes == g.nodes && Standing(g', t1, h1, t2, h2, comp, own, other)
      invariant (InOrder(t1), InOrder(t2)) == Played(steps, k, comp, h1, h2)
      invariant |trace| == k + 1 && trace[0] == (InOrder(Leaf), InOrder(Leaf)) && trace[k] == (InOrder(t1), InOrder(t2))
      invariant forall j :: 0 <= j < k ==> LawfulStep(steps[j], comp, h1, h2, trace[j], trace[j + 1])
    {
      PlayableAt(steps, g, h1, h2, k);
      own, other, g', t1, t2 := PlayOne(steps[k], h1, h2, comp, own, other, g', t1, t2, steps, k);
      trace := trace + [(InOrder(t1), InOrder(t2))];
    }
    TraceFollows(steps, trace, comp, h1, h2);
    TraceHolds(steps, trace, comp, h1, h2, g, t1, t2);
    RunEnds(g', t1, h1, t2, h2, comp, own, other);
  }

  lemma TraceFollows(steps: seq<Step>, trace: seq<(seq<Node>, seq<Node>)>, comp: Comparator, h1: Node, h2: Node)
    requires |trace| == |steps| + 1 && trace[0] == (InOrder(Leaf), InOrder(Leaf))
    requires forall j :: 0 <= j < |steps| ==> LawfulStep(steps[j], comp, h1, h2, trace[j], trace[j + 1])
    ensures Follows(steps, trace, comp, h1, h2)
  {
    hide LawfulStep;
  }

  lemma TraceHolds(steps: seq<Step>, trace: seq<(seq<Node>, seq<Node>)>, comp: Comparator, h1: Node, h2: Node,
                   g: Store, t1: Tree, t2: Tree)
    requires Follows(steps, trace, comp, h1, h2) && trace[|steps|] == (InOrder(t1), InOrder(t2))
    ensures forall n <- g.nodes ::
      n in InOrder(t1) || n in InOrder(t2) <==> exists i: nat :: InSince(steps, trace, n, i, |steps|)
  {
    hide LawfulStep, InSince, InOrder;
    forall n <- g.nodes
      ensures n in InOrder(t1) || n in InOrder(t2) <==> exists i: nat :: InSince(steps, trace, n, i, |steps|)
    {
      HeldIff(steps, trace, comp, h1, h2, n, |steps|);
    }
  }

  lemma RunEnds(g: Store, t1: Tree, h1: Node, t2: Tree, h2: Node, comp: Comparator, own: set<Node>, other: set<Node>)
    requires Standing(g, t1, h1, t2, h2, comp, own, other)
    ensures TwoTrees(g, t1, h1, t2, h2) && AvlValid(g, t1, h1) && AvlValid(g, t2, h2)
    ensures Sorted(comp, InOrder(t1)) && Sorted(comp, InOrder(t2))
    ensures |InOrder(t1)| + 1 >= Fib(Height(t1) + 2) && |InOrder(t2)| + 1 >= Fib(Height(t2) + 2)
  {
    HeightBound(g, t1, h1);
    HeightBound(g, t2, h2);
  }

  lemma HeightBound(g: Store, t: Tree, header: Node)
    requires AvlValid(g, t, header)
    ensures |InOrder(t)| + 1 >= Fib(Height(t) + 2)
  {
    FibonacciBound(g.balance, t);
  }
}
