/** Searching a tree of cubes: which members a search finds when every key covers
    what is below it, and that keys formed by union do. */
module CubeTree {
  import opened Cube

  datatype Tree = Leaf(c: NDBox) | Node(key: NDBox, kids: seq<Tree>)

  function KeyOf(t: Tree): NDBox {
    if t.Leaf? then t.c else t.key
  }

  /** Every key covers what is below it. */
  ghost predicate Sound(t: Tree) {
    Valid(KeyOf(t)) &&
    (t.Node? ==> forall i :: 0 <= i < |t.kids| ==> Sound(t.kids[i]) && Covers(t.key, KeyOf(t.kids[i])))
  }

  ghost predicate Occurs(t: Tree, m: NDBox) {
    match t
    case Leaf(c) => c == m
    case Node(_, kids) => exists i :: 0 <= i < |kids| && Occurs(kids[i], m)
  }

  lemma {:induction false} KeyCovers(t: Tree, m: NDBox)
    requires Sound(t) && Occurs(t, m)
    ensures Valid(m) && Covers(KeyOf(t), m)
  {
    if t.Node? {
      var i :| 0 <= i < |t.kids| && Occurs(t.kids[i], m);
      KeyCovers(t.kids[i], m);
      CoversTrans(t.key, KeyOf(t.kids[i]), m);
    }
  }

  datatype Strategy = Overlapping | Same | Containing | ContainedBy

  /** What the operators mean, as g_cube_leaf_consistent decides them. */
  ghost predicate Satisfies(m: NDBox, s: Strategy, q: NDBox)
    requires Valid(m) && Valid(q)
  {
    match s
    case Overlapping => Overlaps(m, q)
    case Same => CubeCmp(m, q) == 0
    case Containing => Contains(m, q)
    case ContainedBy => Contains(q, m)
  }

  /** g_cube_internal_consistent */
  ghost predicate MayHold(key: NDBox, s: Strategy, q: NDBox)
    requires Valid(key) && Valid(q)
  {
    match s
    case Overlapping => Overlaps(key, q)
    case Same => Contains(key, q)
    case Containing => Contains(key, q)
    case ContainedBy => Overlaps(key, q)
  }

  /** In the dimensions only the query has, the key meets it. */
  ghost predicate Open(key: NDBox, m: NDBox, s: Strategy, q: NDBox)
    requires Valid(key) && Valid(m) && Valid(q)
  {
    s.ContainedBy? ==> forall i: nat :: m.dim <= i < q.dim ==> Meets(key, q, i)
  }

  /** What the test on a key means for the boxes it covers: some box below it could
      overlap the query, or contain it. */
  lemma {:induction false} TestMeans(key: NDBox, s: Strategy, q: NDBox)
    requires Valid(key) && Valid(q)
    ensures MayHold(key, s, q) <==>
            exists m :: Valid(m) && Covers(key, m) &&
                        if s.Overlapping? || s.ContainedBy? then Overlaps(m, q) else Contains(m, q)
  {
    hide Lo, Hi;
    if MayHold(key, s, q) {
      assert Covers(key, key);
    }
    if exists m :: Valid(m) && Covers(key, m) &&
                   if s.Overlapping? || s.ContainedBy? then Overlaps(m, q) else Contains(m, q) {
      var m :| Valid(m) && Covers(key, m) &&
               if s.Overlapping? || s.ContainedBy? then Overlaps(m, q) else Contains(m, q);
      if s.Overlapping? || s.ContainedBy? {
        OverlapSafe(key, m, q);
      } else {
        ContainsSafe(key, m, q);
      }
    }
  }

  /** When a key above a member that satisfies the search lets it through. */
  lemma {:induction false} NotPruned(key: NDBox, m: NDBox, s: Strategy, q: NDBox)
    requires Valid(key) && Valid(m) && Valid(q) && Covers(key, m) && Satisfies(m, s, q)
    ensures MayHold(key, s, q) <==> Open(key, m, s, q)
  {
    match s
    case Overlapping => OverlapSafe(key, m, q);
    case Same => SameSafe(key, m, q);
    case Containing => ContainsSafe(key, m, q);
    case ContainedBy => ContainedByExact(key, m, q);
  }

  ghost predicate Finds(t: Tree, s: Strategy, q: NDBox, m: NDBox)
    requires Sound(t) && Valid(q)
    decreases t
  {
    match t
    case Leaf(c) => c == m && Satisfies(c, s, q)
    case Node(key, kids) => MayHold(key, s, q) && exists i :: 0 <= i < |kids| && Finds(kids[i], s, q, m)
  }

  /** The member lies below keys that are all open. */
  ghost predicate OccursOpen(t: Tree, s: Strategy, q: NDBox, m: NDBox)
    requires Sound(t) && Valid(q) && Valid(m)
    decreases t
  {
    match t
    case Leaf(c) => c == m
    case Node(key, kids) => Open(key, m, s, q) && exists i :: 0 <= i < |kids| && OccursOpen(kids[i], s, q, m)
  }

  lemma {:induction false} OpenOccurs(t: Tree, s: Strategy, q: NDBox, m: NDBox)
    requires Sound(t) && Valid(q) && Valid(m) && OccursOpen(t, s, q, m)
    ensures Occurs(t, m)
    decreases t
  {
    hide Open, Covers, Valid;
    if t.Node? {
      var i :| 0 <= i < |t.kids| && OccursOpen(t.kids[i], s, q, m);
      OpenOccurs(t.kids[i], s, q, m);
    }
  }

  /** A search of a sound tree finds exactly the members that satisfy it and lie
      below open keys ... */
  lemma {:induction false} SearchExact(t: Tree, s: Strategy, q: NDBox, m: NDBox)
    requires Sound(t) && Valid(q) && Valid(m)
    ensures Finds(t, s, q, m) <==> OccursOpen(t, s, q, m) && Satisfies(m, s, q)
    decreases t
  {
    hide Satisfies, MayHold, Open, Covers, Valid;
    if t.Node? {
      if OccursOpen(t, s, q, m) && Satisfies(m, s, q) {
        OpenOccurs(t, s, q, m);
        KeyCovers(t, m);
        NotPruned(t.key, m, s, q);
        var i :| 0 <= i < |t.kids| && OccursOpen(t.kids[i], s, q, m);
        SearchExact(t.kids[i], s, q, m);
      }
      if Finds(t, s, q, m) {
        var i :| 0 <= i < |t.kids| && Finds(t.kids[i], s, q, m);
        SearchExact(t.kids[i], s, q, m);
        OpenOccurs(t.kids[i], s, q, m);
        assert Occurs(t, m);
        KeyCovers(t, m);
        NotPruned(t.key, m, s, q);
      }
    }
  }

  /** The query's box holds zero in the dimensions the member lacks. */
  ghost predicate ZeroInside(q: NDBox, m: NDBox)
    requires Valid(q)
  {
    forall i: nat :: m.dim <= i < q.dim ==> Lo(q, i) <= 0.0 <= Hi(q, i)
  }

  lemma {:induction false} ZeroOpens(key: NDBox, m: NDBox, s: Strategy, q: NDBox)
    requires Valid(key) && Valid(m) && Valid(q) && Covers(key, m) && ZeroInside(q, m)
    ensures Open(key, m, s, q)
  {
    forall i: nat | m.dim <= i < q.dim
      ensures Meets(key, q, i)
    {
      assert Lo(m, i) == 0.0 == Hi(m, i);
      hide Lo, Hi;
    }
  }

  lemma {:induction false} AllOpen(t: Tree, s: Strategy, q: NDBox, m: NDBox)
    requires Sound(t) && Valid(q) && Valid(m) && (s.ContainedBy? ==> ZeroInside(q, m))
    ensures OccursOpen(t, s, q, m) <==> Occurs(t, m)
    decreases t
  {
    hide Open, Covers, Valid, ZeroInside;
    if OccursOpen(t, s, q, m) {
      OpenOccurs(t, s, q, m);
    }
    if t.Node? && Occurs(t, m) {
      KeyCovers(t, m);
      if s.ContainedBy? {
        ZeroOpens(t.key, m, s, q);
      } else {
        AlwaysOpen(t.key, m, s, q);
      }
      var i :| 0 <= i < |t.kids| && Occurs(t.kids[i], m);
      AllOpen(t.kids[i], s, q, m);
    }
  }

  lemma {:induction false} AlwaysOpen(key: NDBox, m: NDBox, s: Strategy, q: NDBox)
    requires Valid(key) && Valid(m) && Valid(q) && !s.ContainedBy?
    ensures Open(key, m, s, q)
  {
  }

  /** ... which are all that satisfy it, for overlap, same and contains, and for
      contained-by when the query holds zero in its excess dimensions. */
  lemma {:induction false} SearchComplete(t: Tree, s: Strategy, q: NDBox, m: NDBox)
    requires Sound(t) && Valid(q) && Valid(m) && (s.ContainedBy? ==> ZeroInside(q, m))
    ensures Finds(t, s, q, m) <==> Occurs(t, m) && Satisfies(m, s, q)
  {
    hide *;
    SearchExact(t, s, q, m);
    AllOpen(t, s, q, m);
  }

  /** The condition is exact: a member contained in the query is found in every
      sound tree that holds it if and only if the query's box holds zero in the
      dimensions the member lacks. */
  lemma {:induction false} ContainedByFinds(q: NDBox, m: NDBox)
    requires Valid(q) && Valid(m) && Contains(q, m)
    ensures (forall t :: Sound(t) && Occurs(t, m) ==> Finds(t, ContainedBy, q, m)) <==> ZeroInside(q, m)
  {
    if ZeroInside(q, m) {
      assert Satisfies(m, ContainedBy, q);
      hide *;
      forall t | Sound(t) && Occurs(t, m)
        ensures Finds(t, ContainedBy, q, m)
      {
        SearchComplete(t, ContainedBy, q, m);
      }
    } else {
      MissedAlone(q, m);
    }
  }

  /** The page that holds the member alone. */
  function Alone(m: NDBox): Tree {
    Node(m, [Leaf(m)])
  }

  lemma {:induction false} MissedAlone(q: NDBox, m: NDBox)
    requires Valid(q) && Valid(m) && !ZeroInside(q, m)
    ensures Sound(Alone(m)) && Occurs(Alone(m), m) && !Finds(Alone(m), ContainedBy, q, m)
  {
    var i: nat :| m.dim <= i < q.dim && !(Lo(q, i) <= 0.0 <= Hi(q, i));
    assert !Meets(m, q, i);
    assert Covers(m, m) && Sound(Leaf(m)) && Occurs(Alone(m).kids[0], m);
    hide Lo, Hi;
  }

  /** A member that a contained-by search of an index misses. */
  lemma {:induction false} ContainedByLoses()
    ensures var m, q := NDBox(true, 1, [1.0]), NDBox(false, 2, [0.0, 5.0, 2.0, 6.0]);
            && Valid(m) && Valid(q) && Contains(q, m) && Sound(Alone(m)) && Occurs(Alone(m), m)
            && !Finds(Alone(m), ContainedBy, q, m)
  {
    var m, q := NDBox(true, 1, [1.0]), NDBox(false, 2, [0.0, 5.0, 2.0, 6.0]);
    assert Holds(q, m, 0) && Lo(q, 1) > 0.0;
    MissedAlone(q, m);
  }

  // ----- keys formed by union -----

  function KeysOf(kids: seq<Tree>): (ks: seq<NDBox>)
    ensures |ks| == |kids| && forall i :: 0 <= i < |kids| ==> ks[i] == KeyOf(kids[i])
  {
    seq(|kids|, i requires 0 <= i < |kids| => KeyOf(kids[i]))
  }

  /** Every key is what g_cube_union gives for the keys below it. */
  ghost predicate UnionKeyed(t: Tree) {
    match t
    case Leaf(c) => Valid(c)
    case Node(key, kids) =>
      && (forall i :: 0 <= i < |kids| ==> UnionKeyed(kids[i]) && Valid(KeyOf(kids[i])))
      && Bounds(key, KeysOf(kids))
  }

  /** Such trees are sound, however deep. */
  lemma {:induction false} UnionKeyedSound(t: Tree)
    requires UnionKeyed(t)
    ensures Sound(t)
  {
    hide Covers, Valid;
    if t.Node? {
      forall i | 0 <= i < |t.kids|
        ensures Sound(t.kids[i]) && Covers(t.key, KeyOf(t.kids[i]))
      {
        UnionKeyedSound(t.kids[i]);
        assert Covers(t.key, KeysOf(t.kids)[i]);
      }
    }
  }

  /** An insertion that widens the page's key by union keeps a tree sound. */
  lemma {:induction false} InsertSound(t: Tree, e: Tree, key: NDBox)
    requires t.Node? && Sound(t) && Sound(e) && Bounds(key, [t.key, KeyOf(e)])
    ensures Sound(Node(key, t.kids + [e]))
  {
    assert Covers(key, [t.key, KeyOf(e)][0]) && Covers(key, [t.key, KeyOf(e)][1]);
    var kids := t.kids + [e];
    hide Covers, Valid;
    forall i | 0 <= i < |kids|
      ensures Sound(kids[i]) && Covers(key, KeyOf(kids[i]))
    {
      if i < |t.kids| {
        CoversTrans(key, t.key, KeyOf(kids[i]));
      }
    }
  }

  /** Anywhere in a sound tree the distances of a key bound those of the members
      below it. */
  lemma {:induction false} TreeBounds(t: Tree, q: NDBox, m: NDBox, coord: int)
    requires Sound(t) && t.Node? && Occurs(t, m) && Valid(q) && coord != 0
    ensures Valid(m)
    ensures Taxi(t.key, q, MaxDim(t.key, q)) <= Taxi(m, q, MaxDim(m, q))
    ensures Square(t.key, q, MaxDim(t.key, q)) <= Square(m, q, MaxDim(m, q))
    ensures Cheby(t.key, q, MaxDim(t.key, q)) <= Cheby(m, q, MaxDim(m, q))
    ensures CoordDistance(t.key, coord, false) <= CoordDistance(m, coord, true)
  {
    KeyCovers(t, m);
    DistanceBounds(t.key, m, q);
    CoordBound(t.key, m, coord);
  }
}
