/** The open list of the search: a priority queue kept as an unbalanced binary
    search tree ordered by a caller-supplied comparator.

    The tree is modelled as a value (`Tree`); the queue itself is a class whose
    `root` field the mutating operations reassign. */
module PriorityQueues {
  import opened Options

  /** A `BinaryNode<T> | undefined`: `Nil` is the absent node. */
  datatype Tree<T> = Nil | Node(left: Tree<T>, value: T, right: Tree<T>)

  /** The values stored in a tree, counted with multiplicity. */
  ghost function Contents<T>(t: Tree<T>): multiset<T>
  {
    match t
    case Nil => multiset{}
    case Node(l, v, r) => multiset{v} + Contents(l) + Contents(r)
  }

  /** The number of nodes. */
  ghost function Size<T>(t: Tree<T>): nat
  {
    match t
    case Nil => 0
    case Node(l, _, r) => 1 + Size(l) + Size(r)
  }

  /** The search-tree ordering that insertion builds: every value below a node
      on its left compares `< 0` against it, every value on its right `>= 0`. */
  ghost predicate IsOrdered<T>(t: Tree<T>, cmp: (T, T) -> real)
  {
    match t
    case Nil => true
    case Node(l, v, r) =>
      && (forall x :: x in Contents(l) ==> cmp(x, v) < 0.0)
      && (forall x :: x in Contents(r) ==> cmp(x, v) >= 0.0)
      && IsOrdered(l, cmp)
      && IsOrdered(r, cmp)
  }

  /** "Compares less than" is irreflexive and transitive: what `a - b` on keys gives. */
  ghost predicate IsStrictOrder<T(!new)>(cmp: (T, T) -> real)
  {
    && (forall a :: cmp(a, a) >= 0.0)
    && (forall a, b, c :: cmp(a, b) < 0.0 && cmp(b, c) < 0.0 ==> cmp(a, c) < 0.0)
  }

  /** Two trees with the same nodes and pointers, whatever values they hold. */
  predicate SameShape<T>(s: Tree<T>, t: Tree<T>)
  {
    match (s, t)
    case (Nil, Nil) => true
    case (Node(sl, _, sr), Node(tl, _, tr)) => SameShape(sl, tl) && SameShape(sr, tr)
    case _ => false
  }

  lemma {:induction false} SameShapeReflexive<T>(t: Tree<T>)
    ensures SameShape(t, t)
  {
    if t != Nil {
      SameShapeReflexive(t.left);
      SameShapeReflexive(t.right);
    }
  }

  // ---------------------------------------------------------------------
  // Traversals
  // ---------------------------------------------------------------------

  /** The values in the order the preorder traversal visits them: node, left, right. */
  function PreorderFrom<T>(t: Tree<T>): seq<T>
  {
    match t
    case Nil => []
    case Node(l, v, r) => [v] + PreorderFrom(l) + PreorderFrom(r)
  }

  /** preorder visits every stored value exactly once. */
  lemma {:induction false} PreorderFromVisitsAll<T>(t: Tree<T>)
    ensures multiset(PreorderFrom(t)) == Contents(t)
    ensures |PreorderFrom(t)| == Size(t)
  {
    if t != Nil {
      PreorderFromVisitsAll(t.left);
      PreorderFromVisitsAll(t.right);
    }
  }

  /** The first value, in preorder, that satisfies `p`; `??` falls through to the right subtree. */
  function FindFrom<T>(t: Tree<T>, p: T -> bool): Option<T>
  {
    match t
    case Nil => None
    case Node(l, v, rt) =>
      if p(v) then Some(v)
      else
        match FindFrom(l, p)
        case Some(x) => Some(x)
        case None => FindFrom(rt, p)
  }

  /** find returns a stored value that satisfies `p`, and returns `undefined` only when no stored value does. */
  lemma {:induction false} FindFromSound<T>(t: Tree<T>, p: T -> bool)
    ensures FindFrom(t, p).Some? ==> p(FindFrom(t, p).value) && FindFrom(t, p).value in Contents(t)
    ensures FindFrom(t, p).None? <==> forall x :: x in Contents(t) ==> !p(x)
  {
    if t != Nil {
      FindFromSound(t.left, p);
      FindFromSound(t.right, p);
    }
  }

  /** The position of the first element of `s` that satisfies `p`, or `|s|` when there is none. */
  function FirstIndex<T>(s: seq<T>, p: T -> bool): (i: nat)
    ensures i <= |s|
  {
    if s == [] then 0
    else if p(s[0]) then 0
    else 1 + FirstIndex(s[1..], p)
  }

  /** FirstIndex finds a match when there is one, and nothing before it matches. */
  lemma {:induction false} FirstIndexIsFirstMatch<T>(s: seq<T>, p: T -> bool)
    ensures FirstIndex(s, p) < |s| ==> p(s[FirstIndex(s, p)])
    ensures forall j :: 0 <= j < FirstIndex(s, p) ==> !p(s[j])
  {
    if s != [] && !p(s[0]) {
      FirstIndexIsFirstMatch(s[1..], p);
      forall j | 0 < j < FirstIndex(s, p) ensures !p(s[j]) {
        assert s[j] == s[1..][j - 1];
      }
    }
  }

  /** Where the first match in a concatenation lies. */
  lemma {:induction false} FirstIndexAppend<T>(a: seq<T>, b: seq<T>, p: T -> bool)
    ensures FirstIndex(a + b, p) == if FirstIndex(a, p) < |a| then FirstIndex(a, p) else |a| + FirstIndex(b, p)
  {
    if a == [] {
      assert a + b == b;
    } else {
      assert (a + b)[1..] == a[1..] + b;
      FirstIndexAppend(a[1..], b, p);
    }
  }

  /** find returns the first preorder match, and `undefined` exactly when there is none. */
  lemma {:induction false} FindFromIsFirstPreorderMatch<T>(t: Tree<T>, p: T -> bool)
    ensures var s := PreorderFrom(t);
            var i := FirstIndex(s, p);
            FindFrom(t, p) == if i < |s| then Some(s[i]) else None
  {
    match t
    case Nil =>
    case Node(l, v, r) =>
      var s, sl, sr := PreorderFrom(t), PreorderFrom(l), PreorderFrom(r);
      assert s == [v] + (sl + sr);
      assert s[1..] == sl + sr;
      if !p(v) {
        FindFromIsFirstPreorderMatch(l, p);
        FindFromIsFirstPreorderMatch(r, p);
        FirstIndexAppend(sl, sr, p);
        var il, ir := FirstIndex(sl, p), FirstIndex(sr, p);
        if il < |sl| {
          assert s[1 + il] == sl[il];
        } else if ir < |sr| {
          assert s[1 + |sl| + ir] == sr[ir];
        }
      }
  }

  // ---------------------------------------------------------------------
  // Insertion
  // ---------------------------------------------------------------------

  /** insertnode: values that compare less go left, all others (ties included) go right. */
  function InsertNode<T>(t: Tree<T>, value: T, cmp: (T, T) -> real): (r: Tree<T>)
    ensures r != Nil
  {
    match t
    case Nil => Node(Nil, value, Nil)
    case Node(l, v, rt) =>
      if cmp(value, v) < 0.0 then Node(InsertNode(l, value, cmp), v, rt)
      else Node(l, v, InsertNode(rt, value, cmp))
  }

  /** After insertion the contents are the old contents plus exactly `value`. */
  lemma {:induction false} InsertNodeContents<T>(t: Tree<T>, value: T, cmp: (T, T) -> real)
    ensures Contents(InsertNode(t, value, cmp)) == Contents(t) + multiset{value}
  {
    match t
    case Nil =>
    case Node(l, v, r) =>
      if cmp(value, v) < 0.0 {
        InsertNodeContents(l, value, cmp);
      } else {
        InsertNodeContents(r, value, cmp);
      }
  }

  /** Insertion keeps the search-tree ordering. */
  lemma {:induction false} InsertNodeKeepsOrder<T>(t: Tree<T>, value: T, cmp: (T, T) -> real)
    requires IsOrdered(t, cmp)
    ensures IsOrdered(InsertNode(t, value, cmp), cmp)
  {
    match t
    case Nil =>
    case Node(l, v, r) =>
      if cmp(value, v) < 0.0 {
        InsertNodeContents(l, value, cmp);
        InsertNodeKeepsOrder(l, value, cmp);
      } else {
        InsertNodeContents(r, value, cmp);
        InsertNodeKeepsOrder(r, value, cmp);
      }
  }

  // ---------------------------------------------------------------------
  // Removal of the leftmost node
  // ---------------------------------------------------------------------

  /** findmin: follows left pointers to the leftmost node, without consulting the comparator. */
  function FindMin<T>(t: Tree<T>): T
    requires t != Nil
  {
    if t.left == Nil then t.value else FindMin(t.left)
  }

  /** popmin's splice: the leftmost node is replaced by its right subtree. */
  function RemoveMin<T>(t: Tree<T>): Tree<T>
    requires t != Nil
  {
    if t.left == Nil then t.right else Node(RemoveMin(t.left), t.value, t.right)
  }

  /** popmin takes out exactly one occurrence of the value it returns, and nothing else. */
  lemma {:induction false} RemoveMinContents<T>(t: Tree<T>)
    requires t != Nil
    ensures FindMin(t) in Contents(t)
    ensures Contents(RemoveMin(t)) + multiset{FindMin(t)} == Contents(t)
    ensures Size(RemoveMin(t)) == Size(t) - 1
  {
    var Node(l, v, r) := t;
    if l == Nil {
      assert Contents(t) == multiset{v} + Contents(r);
    } else {
      RemoveMinContents(l);
      var l' := RemoveMin(l);
      assert RemoveMin(t) == Node(l', v, r);
      assert Contents(RemoveMin(t)) == multiset{v} + Contents(l') + Contents(r);
      assert Contents(RemoveMin(t)) + multiset{FindMin(l)} == multiset{v} + (Contents(l') + multiset{FindMin(l)}) + Contents(r);
    }
  }

  /** The nodes met by following left pointers from the root, each with its value and right subtree. */
  function LeftSpine<T>(t: Tree<T>): seq<(T, Tree<T>)>
  {
    match t
    case Nil => []
    case Node(l, v, r) => [(v, r)] + LeftSpine(l)
  }

  /** Hangs the spine's nodes one below the other through their left pointers, with `bottom` at the end. */
  function Graft<T>(spine: seq<(T, Tree<T>)>, bottom: Tree<T>): Tree<T>
  {
    if spine == [] then bottom else Node(Graft(spine[1..], bottom), spine[0].0, spine[0].1)
  }

  /** A tree is its left spine grafted onto nothing. */
  lemma {:induction false} GraftLeftSpine<T>(t: Tree<T>)
    ensures Graft(LeftSpine(t), Nil) == t
  {
    match t
    case Nil =>
    case Node(l, v, r) =>
      assert ([(v, r)] + LeftSpine(l))[1..] == LeftSpine(l);
      GraftLeftSpine(l);
  }

  /** popmin returns the value of the last node on the left spine and splices that node's right
      subtree into its parent's left pointer (or the root): every other node keeps its value and
      its right subtree. */
  lemma {:induction false} RemoveMinSplicesRightSubtree<T>(t: Tree<T>)
    requires t != Nil
    ensures var s := LeftSpine(t);
            && |s| > 0
            && FindMin(t) == s[|s| - 1].0
            && RemoveMin(t) == Graft(s[..|s| - 1], s[|s| - 1].1)
  {
    var s := LeftSpine(t);
    assert s == [(t.value, t.right)] + LeftSpine(t.left);
    if t.left != Nil {
      RemoveMinSplicesRightSubtree(t.left);
      var sl := LeftSpine(t.left);
      assert s[..|s| - 1] == [(t.value, t.right)] + sl[..|sl| - 1];
      assert s[..|s| - 1][1..] == sl[..|sl| - 1];
    }
  }

  /** Removing the leftmost node keeps the search-tree ordering. */
  lemma {:induction false} RemoveMinKeepsOrder<T>(t: Tree<T>, cmp: (T, T) -> real)
    requires t != Nil && IsOrdered(t, cmp)
    ensures IsOrdered(RemoveMin(t), cmp)
  {
    if t.left != Nil {
      RemoveMinContents(t.left);
      RemoveMinKeepsOrder(t.left, cmp);
    }
  }

  /** While the ordering holds, the leftmost value is a minimum: nothing stored compares less. */
  lemma {:induction false} FindMinIsMinimum<T(!new)>(t: Tree<T>, cmp: (T, T) -> real)
    requires t != Nil && IsOrdered(t, cmp) && IsStrictOrder(cmp)
    ensures forall x :: x in Contents(t) ==> cmp(x, FindMin(t)) >= 0.0
  {
    if t.left != Nil {
      FindMinIsMinimum(t.left, cmp);
      RemoveMinContents(t.left);
      var m, v := FindMin(t.left), t.value;
      assert FindMin(t) == m;
      assert cmp(m, v) < 0.0;
      forall x | x in Contents(t) ensures cmp(x, m) >= 0.0 {
        if x !in Contents(t.left) {
          NotBelowMinimum(cmp, m, v, x);
        }
      }
    }
  }

  /** A value that does not compare below `v` does not compare below anything less than `v`. */
  lemma NotBelowMinimum<T(!new)>(cmp: (T, T) -> real, m: T, v: T, x: T)
    requires IsStrictOrder(cmp) && cmp(m, v) < 0.0 && (x == v || cmp(x, v) >= 0.0)
    ensures cmp(x, m) >= 0.0
  {
    assert cmp(x, m) < 0.0 ==> cmp(x, v) < 0.0;
    assert cmp(v, v) >= 0.0;
  }

  // ---------------------------------------------------------------------
  // Writing through the reference that find returns
  // ---------------------------------------------------------------------

  /** The tree after the value that `FindFrom(t, p)` returns is overwritten in place by `w`:
      no node moves, whatever `w` compares as. */
  function ReplaceFirst<T>(t: Tree<T>, p: T -> bool, w: T): (r: Tree<T>)
    ensures SameShape(r, t)
  {
    match t
    case Nil => Nil
    case Node(l, v, rt) =>
      if p(v) then
        SameShapeReflexive(l);
        SameShapeReflexive(rt);
        Node(l, w, rt)
      else if FindFrom(l, p).Some? then
        SameShapeReflexive(rt);
        Node(ReplaceFirst(l, p, w), v, rt)
      else
        SameShapeReflexive(l);
        Node(l, v, ReplaceFirst(rt, p, w))
  }

  /** Updating one position of a concatenation updates the part that holds it. */
  lemma UpdateConcat<T>(a: seq<T>, b: seq<T>, i: nat, w: T)
    requires i < |a| + |b|
    ensures (a + b)[i := w] == if i < |a| then a[i := w] + b else a + b[i - |a| := w]
  {
    var lhs, rhs := (a + b)[i := w], if i < |a| then a[i := w] + b else a + b[i - |a| := w];
    assert |lhs| == |rhs|;
    forall k | 0 <= k < |lhs| ensures lhs[k] == rhs[k] {
    }
  }

  /** With no match, overwriting the found value changes nothing. */
  lemma {:induction false} ReplaceFirstNoMatch<T>(t: Tree<T>, p: T -> bool, w: T)
    requires FindFrom(t, p).None?
    ensures ReplaceFirst(t, p, w) == t
  {
    if t != Nil {
      ReplaceFirstNoMatch(t.left, p, w);
      ReplaceFirstNoMatch(t.right, p, w);
    }
  }

  /** The overwritten value keeps its place: the preorder sequence changes only at the first match. */
  lemma {:induction false} ReplaceFirstInPlace<T>(t: Tree<T>, p: T -> bool, w: T)
    requires FindFrom(t, p).Some?
    ensures FirstIndex(PreorderFrom(t), p) < |PreorderFrom(t)|
    ensures PreorderFrom(ReplaceFirst(t, p, w)) == PreorderFrom(t)[FirstIndex(PreorderFrom(t), p) := w]
  {
    var Node(l, v, r) := t;
    var s, sl, sr := PreorderFrom(t), PreorderFrom(l), PreorderFrom(r);
    var s' := PreorderFrom(ReplaceFirst(t, p, w));
    assert s == [v] + (sl + sr);
    if p(v) {
      assert s' == [w] + (sl + sr) by {
        assert ReplaceFirst(t, p, w) == Node(l, w, r);
      }
      ReplaceFirstAtRoot(v, sl + sr, s, s', p, w);
    } else {
      FindFromIsFirstPreorderMatch(l, p);
      if FirstIndex(sl, p) < |sl| {
        assert s' == [v] + (sl[FirstIndex(sl, p) := w] + sr) by {
          assert ReplaceFirst(t, p, w) == Node(ReplaceFirst(l, p, w), v, r);
          ReplaceFirstInPlace(l, p, w);
        }
        ReplaceFirstInLeft(v, sl, sr, s, s', p, w);
      } else {
        assert s' == [v] + (sl + sr[FirstIndex(sr, p) := w]) by {
          assert FindFrom(r, p).Some? && ReplaceFirst(t, p, w) == Node(l, v, ReplaceFirst(r, p, w));
          FindFromIsFirstPreorderMatch(r, p);
          ReplaceFirstInPlace(r, p, w);
        }
        ReplaceFirstInRight(v, sl, sr, s, s', p, w);
      }
    }
  }

  /** Case of ReplaceFirstInPlace: the root itself matches. */
  lemma ReplaceFirstAtRoot<T>(v: T, rest: seq<T>, s: seq<T>, s': seq<T>, p: T -> bool, w: T)
    requires p(v) && s == [v] + rest && s' == [w] + rest
    ensures FirstIndex(s, p) == 0 < |s| && s' == s[0 := w]
  {
    UpdateConcat([v], rest, 0, w);
  }

  /** Case of ReplaceFirstInPlace: the first match lies in the left subtree. */
  lemma ReplaceFirstInLeft<T>(v: T, sl: seq<T>, sr: seq<T>, s: seq<T>, s': seq<T>, p: T -> bool, w: T)
    requires !p(v) && s == [v] + (sl + sr)
    requires FirstIndex(sl, p) < |sl|
    requires s' == [v] + (sl[FirstIndex(sl, p) := w] + sr)
    ensures FirstIndex(s, p) == 1 + FirstIndex(sl, p) < |s|
    ensures s' == s[FirstIndex(s, p) := w]
  {
    var il := FirstIndex(sl, p);
    assert s[1..] == sl + sr;
    FirstIndexAppend(sl, sr, p);
    UpdateConcat(sl, sr, il, w);
    UpdateConcat([v], sl + sr, 1 + il, w);
  }

  /** Case of ReplaceFirstInPlace: the left subtree has no match and the first match lies on the right. */
  lemma ReplaceFirstInRight<T>(v: T, sl: seq<T>, sr: seq<T>, s: seq<T>, s': seq<T>, p: T -> bool, w: T)
    requires !p(v) && s == [v] + (sl + sr)
    requires FirstIndex(sl, p) == |sl| && FirstIndex(sr, p) < |sr|
    requires s' == [v] + (sl + sr[FirstIndex(sr, p) := w])
    ensures FirstIndex(s, p) == 1 + |sl| + FirstIndex(sr, p) < |s|
    ensures s' == s[FirstIndex(s, p) := w]
  {
    var ir := FirstIndex(sr, p);
    assert s[1..] == sl + sr;
    FirstIndexAppend(sl, sr, p);
    UpdateConcat(sl, sr, |sl| + ir, w);
    UpdateConcat([v], sl + sr, 1 + |sl| + ir, w);
  }

  /** Overwriting the found value trades exactly that one occurrence for `w`; with no match nothing changes. */
  lemma ReplaceFirstContents<T>(t: Tree<T>, p: T -> bool, w: T)
    ensures FindFrom(t, p).None? ==> ReplaceFirst(t, p, w) == t
    ensures FindFrom(t, p).Some? ==>
              Contents(ReplaceFirst(t, p, w)) + multiset{FindFrom(t, p).value} == Contents(t) + multiset{w}
  {
    if FindFrom(t, p).None? {
      ReplaceFirstNoMatch(t, p, w);
    } else {
      ReplaceFirstInPlace(t, p, w);
      FindFromIsFirstPreorderMatch(t, p);
      PreorderFromVisitsAll(t);
      PreorderFromVisitsAll(ReplaceFirst(t, p, w));
    }
  }

  /** A stored key lowered in place can leave a smaller value above the leftmost node: after such
      a write the tree is no longer ordered and findmin misses the minimum. */
  lemma RelabellingCanHideTheMinimum()
    ensures var diff := (a: real, b: real) => a - b;
            var t := InsertNode(InsertNode(Nil, 5.0, diff), 3.0, diff);
            var t' := ReplaceFirst(t, x => x == 5.0, 1.0);
            && IsOrdered(t, diff)
            && !IsOrdered(t', diff)
            && 1.0 in Contents(t')
            && FindMin(t') == 3.0
  {
  }

  // ---------------------------------------------------------------------
  // Successive popmin calls
  // ---------------------------------------------------------------------

  /** The values that popmin returns, call after call, until the queue is empty. */
  function Drain<T>(t: Tree<T>): seq<T>
    decreases Size(t)
  {
    if t == Nil then []
    else
      RemoveMinContents(t);
      [FindMin(t)] + Drain(RemoveMin(t))
  }

  /** Draining the queue returns every stored value exactly once. */
  lemma {:induction false} DrainContents<T>(t: Tree<T>)
    ensures multiset(Drain(t)) == Contents(t)
    decreases Size(t)
  {
    if t != Nil {
      RemoveMinContents(t);
      DrainContents(RemoveMin(t));
    }
  }

  /** Each element compares `>= 0` against the one before it. */
  ghost predicate IsSortedBy<T>(s: seq<T>, cmp: (T, T) -> real)
  {
    forall i :: 0 < i < |s| ==> cmp(s[i], s[i - 1]) >= 0.0
  }

  /** While the ordering holds, successive popmin calls return the values in non-decreasing order. */
  lemma {:induction false} DrainIsSorted<T(!new)>(t: Tree<T>, cmp: (T, T) -> real)
    requires IsOrdered(t, cmp) && IsStrictOrder(cmp)
    ensures IsSortedBy(Drain(t), cmp)
    decreases Size(t)
  {
    if t != Nil {
      var m, t' := FindMin(t), RemoveMin(t);
      RemoveMinContents(t);
      RemoveMinKeepsOrder(t, cmp);
      DrainIsSorted(t', cmp);
      var s, rest := Drain(t), Drain(t');
      assert s == [m] + rest;
      assert IsSortedBy(rest, cmp);
      if t' != Nil {
        FindMinIsMinimum(t, cmp);
        RemoveMinContents(t');
        assert rest[0] == FindMin(t');
        assert cmp(rest[0], m) >= 0.0;
      }
      forall i | 0 < i < |s| ensures cmp(s[i], s[i - 1]) >= 0.0 {
        if i > 1 {
          assert s[i] == rest[i - 1] && s[i - 1] == rest[i - 2];
        }
      }
    }
  }

  /** Keys 5, 3, 8, 1 inserted with `a - b` come out as 1, 3, 5, 8. */
  lemma InsertThenDrainScenario()
    ensures var diff := (a: real, b: real) => a - b;
            var t := InsertNode(InsertNode(InsertNode(InsertNode(Nil, 5.0, diff), 3.0, diff), 8.0, diff), 1.0, diff);
            Drain(t) == [1.0, 3.0, 5.0, 8.0]
  {
  }

  // ---------------------------------------------------------------------
  // The queue object
  // ---------------------------------------------------------------------

  /** PriorityQueue<T>: the comparator is fixed at construction, the root is rewritten by insert and popmin. */
  class PriorityQueue<T> {
    const comparator: (T, T) -> real
    var root: Tree<T>

    constructor (comparator: (T, T) -> real)
      ensures this.comparator == comparator
      ensures root == Nil
    {
      this.comparator := comparator;
      root := Nil;
    }

    /** preorder: the values the callback is given, in the order it is given them. */
    function Preorder(): (s: seq<T>)
      reads this
      ensures multiset(s) == Contents(root)
    {
      PreorderFromVisitsAll(root);
      PreorderFrom(root)
    }

    /** insert: the contents gain exactly `value`, and an ordered tree stays ordered. */
    method Insert(value: T)
      modifies this
      ensures root == InsertNode(old(root), value, comparator)
      ensures Contents(root) == Contents(old(root)) + multiset{value}
      ensures IsOrdered(old(root), comparator) ==> IsOrdered(root, comparator)
    {
      InsertNodeContents(root, value, comparator);
      if IsOrdered(root, comparator) {
        InsertNodeKeepsOrder(root, value, comparator);
      }
      root := InsertNode(root, value, comparator);
    }

    /** popmin: `None` (undefined) on an empty queue, which stays empty; otherwise the leftmost
        value, which is taken out once. */
    method PopMin() returns (r: Option<T>)
      modifies this
      ensures old(root) == Nil ==> r == None && root == Nil
      ensures old(root) != Nil ==> r == Some(FindMin(old(root))) && root == RemoveMin(old(root))
      ensures r.Some? ==> Contents(root) + multiset{r.value} == Contents(old(root))
      ensures IsOrdered(old(root), comparator) ==> IsOrdered(root, comparator)
    {
      if root == Nil {
        return None;
      }
      RemoveMinContents(root);
      if IsOrdered(root, comparator) {
        RemoveMinKeepsOrder(root, comparator);
      }
      var m := FindMin(root);
      root := RemoveMin(root);
      return Some(m);
    }

    /** find: the first stored value in preorder that satisfies `p`. */
    function Find(p: T -> bool): (r: Option<T>)
      reads this
      ensures r.Some? ==> p(r.value) && r.value in Contents(root)
      ensures r.None? <==> forall x :: x in Contents(root) ==> !p(x)
    {
      FindFromSound(root, p);
      FindFrom(root, p)
    }

    /** Assigning fields of the object that find(p) returned: the stored value becomes `w` in place. */
    method Replace(p: T -> bool, w: T)
      modifies this
      ensures root == ReplaceFirst(old(root), p, w)
      ensures old(Find(p)) == None ==> root == old(root)
      ensures old(Find(p)).Some? ==> Contents(root) + multiset{old(Find(p)).value} == Contents(old(root)) + multiset{w}
    {
      ReplaceFirstContents(root, p, w);
      root := ReplaceFirst(root, p, w);
    }

    /** isempty: true exactly when nothing is stored. */
    function IsEmpty(): (b: bool)
      reads this
      ensures b <==> Contents(root) == multiset{}
    {
      root == Nil
    }
  }
}
