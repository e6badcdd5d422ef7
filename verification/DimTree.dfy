/**
 The value of a dimension-presence tree, what growing, marking and listing do to it, and its
 meaning: the set of coordinate tuples that some record carried.
 */
module DimTree {
  import opened Optional
  import Matrix

  datatype Dim = Dim(id: nat, size: nat)

  /** A dimension together with a position in it. */
  datatype Coord = Coord(dim: Dim, pos: nat)

  datatype Tree = Tree(at: Coord, kids: seq<Tree>, hasValue: bool)

  /** A record's instance id decodes to a position for each dimension id; a dimension it does not
      have reads as position 0. */
  type Instance = map<nat, nat>

  function Position(r: Instance, id: nat): nat {
    if id in r then r[id] else 0
  }

  /** The tree before any dimension is added. */
  const ROOT: Tree := Leaf(Coord(Dim(0, 0), 0))

  function Leaf(at: Coord): Tree { Tree(at, [], false) }

  // ---------- the operations ----------

  function NewLeaf(dim: Dim, i: nat): Tree { Leaf(Coord(dim, i)) }

  /** Every leaf grows one child for each position of the dimension. */
  function Forward(t: Tree, dim: Dim): Tree {
    if t.kids == [] then t.(kids := seq(dim.size, i requires 0 <= i < dim.size => NewLeaf(dim, i)))
    else t.(kids := seq(|t.kids|, i requires 0 <= i < |t.kids| => Forward(t.kids[i], dim)))
  }

  function Build(dims: seq<Dim>): Tree {
    if dims == [] then ROOT else Forward(Build(dims[..|dims| - 1]), dims[|dims| - 1])
  }

  /** Marks the leaf at the record's position; None when a position is out of range. */
  function Mark(t: Tree, r: Instance): Option<Tree> {
    if t.kids == [] then Some(t.(hasValue := true))
    else
      var pos := Position(r, t.kids[0].at.dim.id);
      if pos >= |t.kids| then None
      else
        var kid := Mark(t.kids[pos], r);
        if kid.None? then None else Some(t.(kids := t.kids[pos := kid.value]))
  }

  /** A record that is refused leaves the tree as it was. */
  function MarkOrKeep(t: Tree, r: Instance): Tree {
    var m := Mark(t, r);
    if m.None? then t else m.value
  }

  function MarkAll(t: Tree, records: seq<Instance>): Tree {
    if records == [] then t
    else MarkOrKeep(MarkAll(t, records[..|records| - 1]), records[|records| - 1])
  }

  predicate AllSeen(t: Tree) {
    if t.kids == [] then t.hasValue else forall i | 0 <= i < |t.kids| :: AllSeen(t.kids[i])
  }

  /** One line of the report: whether there is a value at these coordinates. */
  datatype Line = Line(seen: bool, at: seq<Coord>)

  function Lines(t: Tree, stack: seq<Coord>): seq<Line>
    decreases t, |t.kids| + 1
  {
    if t.kids == [] then [Line(t.hasValue, stack)] else LinesOf(t, stack, |t.kids|)
  }

  /** The lines of the first n children. */
  function LinesOf(t: Tree, stack: seq<Coord>, n: nat): seq<Line>
    requires n <= |t.kids|
    decreases t, n
  {
    if n == 0 then []
    else LinesOf(t, stack, n - 1) + Lines(t.kids[n - 1], stack + [t.kids[n - 1].at])
  }

  // ---------- coordinate tuples ----------

  /** The dimensions that make a level of the tree: adding one of size zero changes nothing. */
  function Levels(dims: seq<Dim>): (levels: seq<Dim>)
    ensures forall d | d in levels :: d.size > 0
  {
    if dims == [] then []
    else
      var front, last := Levels(dims[..|dims| - 1]), dims[|dims| - 1];
      if last.size > 0 then front + [last] else front
  }

  predicate InBox(tuple: seq<nat>, dims: seq<Dim>) {
    |tuple| == |dims| && forall k | 0 <= k < |dims| :: tuple[k] < dims[k].size
  }

  /** The tuple of a record. */
  function Tuple(r: Instance, dims: seq<Dim>): (tuple: seq<nat>)
    ensures |tuple| == |dims|
    ensures forall k | 0 <= k < |dims| :: tuple[k] == if dims[k].id in r then r[dims[k].id] else 0
  {
    seq(|dims|, k requires 0 <= k < |dims| => Position(r, dims[k].id))
  }

  function Product(dims: seq<Dim>): nat {
    if dims == [] then 1 else dims[0].size * Product(dims[1..])
  }

  /** Each level of the tree is one dimension, each child one position of it. */
  predicate Shaped(t: Tree, dims: seq<Dim>)
    decreases |dims|
  {
    if dims == [] then t.kids == []
    else
      && dims[0].size > 0 && |t.kids| == dims[0].size
      && forall i | 0 <= i < |t.kids| :: t.kids[i].at == Coord(dims[0], i) && Shaped(t.kids[i], dims[1..])
  }

  /** The flag of the leaf a tuple leads to. */
  predicate ValueAt(t: Tree, dims: seq<Dim>, tuple: seq<nat>)
    requires Shaped(t, dims) && InBox(tuple, dims)
    decreases |dims|
  {
    if dims == [] then t.hasValue
    else InBoxTail(tuple, dims); ValueAt(t.kids[tuple[0]], dims[1..], tuple[1..])
  }

  lemma {:induction false} InBoxTail(tuple: seq<nat>, dims: seq<Dim>)
    requires InBox(tuple, dims) && dims != []
    ensures InBox(tuple[1..], dims[1..])
  {
  }

  lemma {:induction false} InBoxCons(i: nat, tail: seq<nat>, dims: seq<Dim>)
    requires dims != [] && i < dims[0].size && InBox(tail, dims[1..])
    ensures InBox([i] + tail, dims) && ([i] + tail)[1..] == tail
  {
    assert forall k | 1 <= k < |dims| :: dims[k] == dims[1..][k - 1];
  }

  // ---------- growing ----------

  lemma {:induction false} ForwardShaped(t: Tree, dims: seq<Dim>, dim: Dim)
    requires Shaped(t, dims)
    ensures Forward(t, dim).at == t.at
    ensures Shaped(Forward(t, dim), if dim.size > 0 then dims + [dim] else dims)
    decreases |dims|
  {
    var dims' := if dim.size > 0 then dims + [dim] else dims;
    if dims == [] {
      if dim.size > 0 {
        assert dims'[1..] == [];
        forall i: nat | i < dim.size ensures Shaped(NewLeaf(dim, i), []) { }
      }
    } else {
      assert dims'[1..] == if dim.size > 0 then dims[1..] + [dim] else dims[1..];
      forall i | 0 <= i < |t.kids|
        ensures Shaped(Forward(t.kids[i], dim), dims'[1..]) && Forward(t.kids[i], dim).at == t.kids[i].at
      {
        ForwardShaped(t.kids[i], dims[1..], dim);
      }
    }
  }

  lemma {:induction false} BuildShaped(dims: seq<Dim>)
    ensures Shaped(Build(dims), Levels(dims))
  {
    if dims != [] {
      BuildShaped(dims[..|dims| - 1]);
      ForwardShaped(Build(dims[..|dims| - 1]), Levels(dims[..|dims| - 1]), dims[|dims| - 1]);
    }
  }

  lemma {:induction false} ForwardUnmarked(t: Tree, dims: seq<Dim>, dim: Dim, tuple: seq<nat>)
    requires Shaped(t, dims)
    requires forall u | InBox(u, dims) :: !ValueAt(t, dims, u)
    ensures
      var dims' := if dim.size > 0 then dims + [dim] else dims;
      Shaped(Forward(t, dim), dims') && (InBox(tuple, dims') ==> !ValueAt(Forward(t, dim), dims', tuple))
    decreases |dims|
  {
    var dims' := if dim.size > 0 then dims + [dim] else dims;
    ForwardShaped(t, dims, dim);
    if InBox(tuple, dims') {
      if dims == [] {
        assert InBox([], dims) && !ValueAt(t, dims, []);
      } else {
        assert dims'[1..] == if dim.size > 0 then dims[1..] + [dim] else dims[1..];
        InBoxTail(tuple, dims');
        var kid := t.kids[tuple[0]];
        forall u | InBox(u, dims[1..]) ensures !ValueAt(kid, dims[1..], u) {
          InBoxCons(tuple[0], u, dims);
          assert !ValueAt(t, dims, [tuple[0]] + u);
        }
        ForwardUnmarked(kid, dims[1..], dim, tuple[1..]);
      }
    }
  }

  lemma {:induction false} BuildUnmarked(dims: seq<Dim>, tuple: seq<nat>)
    requires InBox(tuple, Levels(dims))
    ensures Shaped(Build(dims), Levels(dims)) && !ValueAt(Build(dims), Levels(dims), tuple)
  {
    BuildShaped(dims);
    if dims != [] {
      var front := dims[..|dims| - 1];
      BuildShaped(front);
      forall u | InBox(u, Levels(front)) ensures !ValueAt(Build(front), Levels(front), u) {
        BuildUnmarked(front, u);
      }
      ForwardUnmarked(Build(front), Levels(front), dims[|dims| - 1], tuple);
    }
  }

  // ---------- marking ----------

  /** A record is refused exactly when its tuple lies outside the box; otherwise the flag of its
      tuple is raised and no other changes. */
  lemma {:induction false} MarkExact(t: Tree, dims: seq<Dim>, r: Instance)
    requires Shaped(t, dims)
    ensures Mark(t, r).Some? <==> InBox(Tuple(r, dims), dims)
    ensures Mark(t, r).Some? ==> Mark(t, r).value.at == t.at && Shaped(Mark(t, r).value, dims)
    ensures Mark(t, r).Some? ==> forall u | InBox(u, dims) ::
              ValueAt(Mark(t, r).value, dims, u) == (ValueAt(t, dims, u) || u == Tuple(r, dims))
    decreases |dims|
  {
    if dims == [] {
      assert Tuple(r, dims) == [];
    } else {
      var pos := Position(r, dims[0].id);
      assert Tuple(r, dims) == [pos] + Tuple(r, dims[1..]);
      if pos < |t.kids| {
        MarkExact(t.kids[pos], dims[1..], r);
        if InBox(Tuple(r, dims[1..]), dims[1..]) {
          InBoxCons(pos, Tuple(r, dims[1..]), dims);
          MarkStep(t, dims, r);
        } else {
          assert Tuple(r, dims)[1..] == Tuple(r, dims[1..]);
          if InBox(Tuple(r, dims), dims) {
            InBoxTail(Tuple(r, dims), dims);
          }
        }
      }
    }
  }

  lemma {:induction false} MarkStep(t: Tree, dims: seq<Dim>, r: Instance)
    requires Shaped(t, dims) && dims != []
    requires Position(r, dims[0].id) < |t.kids|
    requires
      var kid := t.kids[Position(r, dims[0].id)];
      && Mark(kid, r).Some? && Mark(kid, r).value.at == kid.at && Shaped(Mark(kid, r).value, dims[1..])
      && forall u | InBox(u, dims[1..]) ::
           ValueAt(Mark(kid, r).value, dims[1..], u) == (ValueAt(kid, dims[1..], u) || u == Tuple(r, dims[1..]))
    ensures Mark(t, r).Some? && Mark(t, r).value.at == t.at && Shaped(Mark(t, r).value, dims)
    ensures forall u | InBox(u, dims) ::
              ValueAt(Mark(t, r).value, dims, u) == (ValueAt(t, dims, u) || u == Tuple(r, dims))
  {
    var pos := Position(r, dims[0].id);
    var t' := Mark(t, r).value;
    assert t'.kids == t.kids[pos := Mark(t.kids[pos], r).value];
    forall u | InBox(u, dims) ensures ValueAt(t', dims, u) == (ValueAt(t, dims, u) || u == Tuple(r, dims)) {
      InBoxTail(u, dims);
      TupleStep(r, dims, u);
    }
  }

  lemma {:induction false} TupleStep(r: Instance, dims: seq<Dim>, u: seq<nat>)
    requires |u| == |dims| > 0
    ensures u == Tuple(r, dims) <==> u[0] == Position(r, dims[0].id) && u[1..] == Tuple(r, dims[1..])
  {
    assert u == [u[0]] + u[1..];
    assert Tuple(r, dims) == [Position(r, dims[0].id)] + Tuple(r, dims[1..]);
  }

  ghost predicate Hit(records: seq<Instance>, dims: seq<Dim>, tuple: seq<nat>) {
    exists j | 0 <= j < |records| :: Tuple(records[j], dims) == tuple
  }

  ghost predicate AllHit(records: seq<Instance>, dims: seq<Dim>) {
    forall u | InBox(u, dims) :: Hit(records, dims, u)
  }

  lemma {:induction false} HitStep(records: seq<Instance>, dims: seq<Dim>, tuple: seq<nat>)
    requires records != []
    ensures Hit(records, dims, tuple) <==>
            Hit(records[..|records| - 1], dims, tuple) || Tuple(records[|records| - 1], dims) == tuple
  {
    var front := records[..|records| - 1];
    if Hit(front, dims, tuple) {
      var j :| 0 <= j < |front| && Tuple(front[j], dims) == tuple;
      assert records[j] == front[j];
    }
    if Hit(records, dims, tuple) && Tuple(records[|records| - 1], dims) != tuple {
      var j :| 0 <= j < |records| && Tuple(records[j], dims) == tuple;
      assert front[j] == records[j];
    }
  }

  /** The flags of a tree are exactly the tuples its records carried. */
  lemma {:induction false} FlagsAreHits(dims: seq<Dim>, records: seq<Instance>)
    ensures Shaped(MarkAll(Build(dims), records), Levels(dims))
    ensures forall u | InBox(u, Levels(dims)) ::
              ValueAt(MarkAll(Build(dims), records), Levels(dims), u) <==> Hit(records, Levels(dims), u)
    decreases |records|
  {
    var levels := Levels(dims);
    if records == [] {
      BuildShaped(dims);
      forall u | InBox(u, levels) ensures !ValueAt(Build(dims), levels, u) {
        BuildUnmarked(dims, u);
      }
    } else {
      var front, r := records[..|records| - 1], records[|records| - 1];
      FlagsAreHits(dims, front);
      MarkExact(MarkAll(Build(dims), front), levels, r);
      forall u | InBox(u, levels)
        ensures ValueAt(MarkAll(Build(dims), records), levels, u) <==> Hit(records, levels, u)
      {
        HitStep(records, levels, u);
      }
    }
  }

  // ---------- checking ----------

  lemma {:induction false} SeenIffMarked(t: Tree, dims: seq<Dim>)
    requires Shaped(t, dims)
    ensures AllSeen(t) <==> forall u | InBox(u, dims) :: ValueAt(t, dims, u)
    decreases |dims|
  {
    if dims == [] {
      assert InBox([], dims);
      if AllSeen(t) {
        forall u | InBox(u, dims) ensures ValueAt(t, dims, u) { }
      } else {
        assert !ValueAt(t, dims, []);
      }
    } else {
      forall i: nat | i < |t.kids|
        ensures AllSeen(t.kids[i]) <==> forall u | InBox(u, dims[1..]) :: ValueAt(t.kids[i], dims[1..], u)
      {
        SeenIffMarked(t.kids[i], dims[1..]);
      }
      if AllSeen(t) {
        forall u | InBox(u, dims) ensures ValueAt(t, dims, u) {
          InBoxTail(u, dims);
        }
      } else {
        var i: nat :| i < |t.kids| && !AllSeen(t.kids[i]);
        var tail :| InBox(tail, dims[1..]) && !ValueAt(t.kids[i], dims[1..], tail);
        InBoxCons(i, tail, dims);
        assert !ValueAt(t, dims, [i] + tail);
      }
    }
  }

  /** The check passes if and only if every tuple of the product was carried by some record. */
  lemma {:induction false} PresenceExact(dims: seq<Dim>, records: seq<Instance>)
    ensures AllSeen(MarkAll(Build(dims), records)) <==> AllHit(records, Levels(dims))
  {
    var t, levels := MarkAll(Build(dims), records), Levels(dims);
    FlagsAreHits(dims, records);
    SeenIffMarked(t, levels);
  }

  // ---------- the report lists every tuple once ----------

  /** Place of a tuple in lexicographic order. */
  function Rank(tuple: seq<nat>, dims: seq<Dim>): nat
    requires |tuple| == |dims|
    decreases |dims|
  {
    if dims == [] then 0 else tuple[0] * Product(dims[1..]) + Rank(tuple[1..], dims[1..])
  }

  function Unrank(k: nat, dims: seq<Dim>): seq<nat>
    requires k < Product(dims)
    decreases |dims|
  {
    if dims == [] then []
    else if Product(dims[1..]) == 0 then []
    else
      var tail := Product(dims[1..]);
      Matrix.ModBounds(k, tail);
      [k / tail] + Unrank(k % tail, dims[1..])
  }

  lemma {:induction false} RankInRange(tuple: seq<nat>, dims: seq<Dim>)
    requires InBox(tuple, dims)
    ensures Rank(tuple, dims) < Product(dims)
    decreases |dims|
  {
    if dims != [] {
      InBoxTail(tuple, dims);
      RankInRange(tuple[1..], dims[1..]);
      Matrix.FlatInBounds(tuple[0], Rank(tuple[1..], dims[1..]), dims[0].size, Product(dims[1..]));
    }
  }

  /** Tuples of the box and numbers below the product correspond one to one. */
  lemma {:induction false} UnrankRank(k: nat, dims: seq<Dim>)
    requires k < Product(dims)
    ensures InBox(Unrank(k, dims), dims) && Rank(Unrank(k, dims), dims) == k
    decreases |dims|
  {
    if dims != [] {
      var tail := Product(dims[1..]);
      assert tail > 0;
      Matrix.ModBounds(k, tail);
      UnrankRank(k % tail, dims[1..]);
      QuotientBound(k, dims[0].size, tail);
      InBoxCons(k / tail, Unrank(k % tail, dims[1..]), dims);
    }
  }

  lemma {:induction false} QuotientBound(k: nat, n: nat, m: nat)
    requires k < n * m && m > 0
    ensures k / m < n && (k / m) * m + k % m == k
  {
    if k / m >= n {
      Matrix.ScaleMonotone(n, k / m, m);
    }
  }

  lemma {:induction false} RankInjective(a: seq<nat>, b: seq<nat>, dims: seq<Dim>)
    requires InBox(a, dims) && InBox(b, dims) && Rank(a, dims) == Rank(b, dims)
    ensures a == b
    decreases |dims|
  {
    if dims != [] {
      InBoxTail(a, dims);
      InBoxTail(b, dims);
      RankInRange(a[1..], dims[1..]);
      RankInRange(b[1..], dims[1..]);
      Matrix.FlatInjective(a[0], Rank(a[1..], dims[1..]), b[0], Rank(b[1..], dims[1..]), Product(dims[1..]));
      RankInjective(a[1..], b[1..], dims[1..]);
      assert a == [a[0]] + a[1..] && b == [b[0]] + b[1..];
    }
  }

  function Coords(tuple: seq<nat>, dims: seq<Dim>): (at: seq<Coord>)
    requires |tuple| == |dims|
    ensures |at| == |dims| && forall k | 0 <= k < |dims| :: at[k] == Coord(dims[k], tuple[k])
  {
    seq(|dims|, k requires 0 <= k < |dims| => Coord(dims[k], tuple[k]))
  }

  /** The report of a tree has one line per tuple, in lexicographic order, with the tuple's flag. */
  lemma {:induction false} LinesExact(t: Tree, dims: seq<Dim>, stack: seq<Coord>)
    requires Shaped(t, dims)
    ensures |Lines(t, stack)| == Product(dims)
    ensures forall u | InBox(u, dims) && Rank(u, dims) < |Lines(t, stack)| ::
              Lines(t, stack)[Rank(u, dims)] == Line(ValueAt(t, dims, u), stack + Coords(u, dims))
    decreases |dims|
  {
    if dims == [] {
      forall u | InBox(u, dims) && Rank(u, dims) < |Lines(t, stack)|
        ensures Lines(t, stack)[Rank(u, dims)] == Line(ValueAt(t, dims, u), stack + Coords(u, dims))
      {
        assert stack + Coords(u, dims) == stack;
      }
    } else {
      forall i: nat | i < |t.kids| ensures KidLines(t, dims, stack, i) {
        LinesExact(t.kids[i], dims[1..], stack + [t.kids[i].at]);
      }
      LinesOfExact(t, dims, stack, |t.kids|);
      forall u | InBox(u, dims) && Rank(u, dims) < |Lines(t, stack)|
        ensures Lines(t, stack)[Rank(u, dims)] == Line(ValueAt(t, dims, u), stack + Coords(u, dims))
      {
        LineOfTuple(t, dims, stack, u);
      }
    }
  }

  /** The report of one child, seen from its parent. */
  ghost predicate KidLines(t: Tree, dims: seq<Dim>, stack: seq<Coord>, i: nat)
    requires Shaped(t, dims) && dims != [] && i < |t.kids|
  {
    var lines := Lines(t.kids[i], stack + [t.kids[i].at]);
    && |lines| == Product(dims[1..])
    && forall u | InBox(u, dims[1..]) && Rank(u, dims[1..]) < |lines| ::
         lines[Rank(u, dims[1..])] ==
         Line(ValueAt(t.kids[i], dims[1..], u), stack + [t.kids[i].at] + Coords(u, dims[1..]))
  }

  lemma {:induction false} LinesOfExact(t: Tree, dims: seq<Dim>, stack: seq<Coord>, n: nat)
    requires Shaped(t, dims) && dims != [] && n <= |t.kids|
    requires forall i: nat | i < |t.kids| :: KidLines(t, dims, stack, i)
    ensures |LinesOf(t, stack, n)| == n * Product(dims[1..])
    ensures forall i: nat, k: nat
              | i < n && k < Product(dims[1..]) && Matrix.Flat(i, k, Product(dims[1..])) < |LinesOf(t, stack, n)| ::
              LinesOf(t, stack, n)[Matrix.Flat(i, k, Product(dims[1..]))] == KidLine(t, stack, i, k)
  {
    if n > 0 {
      var tail := Product(dims[1..]);
      LinesOfExact(t, dims, stack, n - 1);
      assert KidLines(t, dims, stack, n - 1);
      assert (n - 1) * tail + tail == n * tail;
      forall i: nat, k: nat | i < n && k < tail && Matrix.Flat(i, k, tail) < |LinesOf(t, stack, n)|
        ensures LinesOf(t, stack, n)[Matrix.Flat(i, k, tail)] == KidLine(t, stack, i, k)
      {
        if i < n - 1 {
          Matrix.FlatInBounds(i, k, n - 1, tail);
        } else {
          assert Matrix.Flat(i, k, tail) == |LinesOf(t, stack, n - 1)| + k;
        }
      }
    }
  }

  function KidLine(t: Tree, stack: seq<Coord>, i: nat, k: nat): Line
    requires i < |t.kids|
  {
    var lines := Lines(t.kids[i], stack + [t.kids[i].at]);
    if k < |lines| then lines[k] else Line(false, [])
  }

  lemma {:induction false} LineOfTuple(t: Tree, dims: seq<Dim>, stack: seq<Coord>, u: seq<nat>)
    requires Shaped(t, dims) && dims != [] && InBox(u, dims)
    requires forall i: nat | i < |t.kids| :: KidLines(t, dims, stack, i)
    requires |Lines(t, stack)| == |t.kids| * Product(dims[1..])
    requires forall i: nat, k: nat
               | i < |t.kids| && k < Product(dims[1..])
                 && Matrix.Flat(i, k, Product(dims[1..])) < |Lines(t, stack)| ::
              Lines(t, stack)[Matrix.Flat(i, k, Product(dims[1..]))] == KidLine(t, stack, i, k)
    ensures Rank(u, dims) < |Lines(t, stack)|
    ensures Lines(t, stack)[Rank(u, dims)] == Line(ValueAt(t, dims, u), stack + Coords(u, dims))
  {
    var i, v := u[0], u[1..];
    InBoxTail(u, dims);
    RankInRange(u, dims);
    RankInRange(v, dims[1..]);
    assert KidLines(t, dims, stack, i);
    assert Rank(u, dims) == Matrix.Flat(i, Rank(v, dims[1..]), Product(dims[1..]));
    CoordsStep(u, dims, stack);
  }

  lemma {:induction false} CoordsStep(u: seq<nat>, dims: seq<Dim>, stack: seq<Coord>)
    requires |u| == |dims| > 0
    ensures stack + [Coord(dims[0], u[0])] + Coords(u[1..], dims[1..]) == stack + Coords(u, dims)
  {
    var first, all, tail := Coord(dims[0], u[0]), Coords(u, dims), Coords(u[1..], dims[1..]);
    assert all == [first] + tail;
    Associate(stack, [first], tail);
  }

  lemma {:induction false} Associate(a: seq<Coord>, b: seq<Coord>, c: seq<Coord>)
    ensures a + b + c == a + (b + c)
  {
  }

  // ---------- leaf counts ----------

  lemma {:induction false} ProductAppend(dims: seq<Dim>, dim: Dim)
    ensures Product(dims + [dim]) == Product(dims) * dim.size
    decreases |dims|
  {
    if dims == [] {
      assert (dims + [dim])[1..] == [];
    } else {
      ProductAppend(dims[1..], dim);
      assert (dims + [dim])[1..] == dims[1..] + [dim];
      assert dims[0].size * (Product(dims[1..]) * dim.size) == dims[0].size * Product(dims[1..]) * dim.size;
    }
  }

  lemma {:induction false} ProductPositive(dims: seq<Dim>)
    requires forall d | d in dims :: d.size > 0
    ensures Product(dims) > 0
    decreases |dims|
  {
    if dims != [] {
      ProductPositive(dims[1..]);
      Matrix.ScaleMonotone(1, dims[0].size, Product(dims[1..]));
    }
  }

  lemma {:induction false} AllLevels(dims: seq<Dim>)
    requires forall d | d in dims :: d.size > 0
    ensures Levels(dims) == dims
  {
    if dims != [] {
      var front, last := dims[..|dims| - 1], dims[|dims| - 1];
      assert dims == front + [last] && last in dims;
      AllLevels(front);
    }
  }

  lemma {:induction false} EmptyDimension(dims: seq<Dim>, k: nat)
    requires k < |dims| && dims[k].size == 0
    ensures Product(dims) == 0
    decreases |dims|
  {
    if k > 0 {
      EmptyDimension(dims[1..], k - 1);
    }
  }

  /** The number of leaves of the tree is the product of the dimension sizes exactly when no
      dimension is empty. */
  lemma {:induction false} LeavesAreProduct(dims: seq<Dim>)
    ensures |Lines(Build(dims), [])| == Product(dims) <==> forall d | d in dims :: d.size > 0
  {
    BuildShaped(dims);
    LinesExact(Build(dims), Levels(dims), []);
    ProductPositive(Levels(dims));
    if forall d | d in dims :: d.size > 0 {
      AllLevels(dims);
    } else {
      var k: nat :| k < |dims| && dims[k].size == 0;
      EmptyDimension(dims, k);
    }
  }

  // ---------- counting tuples ----------

  function Places(records: seq<Instance>, dims: seq<Dim>): (places: seq<nat>)
    ensures |places| == |records|
    ensures forall j | 0 <= j < |records| :: places[j] == Rank(Tuple(records[j], dims), dims)
  {
    seq(|records|, j requires 0 <= j < |records| => Rank(Tuple(records[j], dims), dims))
  }

  function Elements(s: seq<nat>): set<nat> { set x | x in s }

  lemma {:induction false} ElementsBound(s: seq<nat>)
    ensures |Elements(s)| <= |s|
  {
    if s != [] {
      ElementsBound(s[1..]);
      assert Elements(s) == {s[0]} + Elements(s[1..]);
    }
  }

  lemma {:induction false} RepeatShrinks(s: seq<nat>, i: nat, j: nat)
    requires i < j < |s| && s[i] == s[j]
    ensures |Elements(s)| < |s|
  {
    var rest := s[..j] + s[j + 1..];
    ElementsBound(rest);
    forall x ensures x in s <==> x in rest {
      if x in s {
        var k :| 0 <= k < |s| && s[k] == x;
        var k' := if k < j then k else if k == j then i else k - 1;
        assert rest[k'] == x;
      }
    }
    assert Elements(s) == Elements(rest);
  }

  function Below(n: nat): (r: set<nat>)
    ensures |r| == n && forall x: nat :: x in r <==> x < n
  {
    if n == 0 then {} else Below(n - 1) + {n - 1}
  }

  lemma {:induction false} DistinctElements(s: seq<nat>)
    requires forall i, j | 0 <= i < j < |s| :: s[i] != s[j]
    ensures |Elements(s)| == |s|
  {
    if s != [] {
      DistinctElements(s[1..]);
      assert Elements(s) == {s[0]} + Elements(s[1..]);
    }
  }

  ghost predicate TuplesDistinct(records: seq<Instance>, dims: seq<Dim>) {
    forall i, j | 0 <= i < j < |records| :: Tuple(records[i], dims) != Tuple(records[j], dims)
  }

  lemma {:induction false} AllPlacesHit(records: seq<Instance>, dims: seq<Dim>)
    requires AllHit(records, dims)
    ensures Below(Product(dims)) <= Elements(Places(records, dims))
  {
    forall k: nat | k < Product(dims) ensures k in Elements(Places(records, dims)) {
      UnrankRank(k, dims);
      assert Hit(records, dims, Unrank(k, dims));
      var j :| 0 <= j < |records| && Tuple(records[j], dims) == Unrank(k, dims);
      assert Places(records, dims)[j] == k;
    }
  }

  lemma {:induction false} CardinalityMonotone(a: set<nat>, b: set<nat>)
    requires a <= b
    ensures |a| <= |b|
  {
    assert b == a + (b - a);
  }

  /** When every tuple is hit, the records are as many as the tuples exactly when no tuple is hit
      twice. */
  lemma {:induction false} CountIffOnce(records: seq<Instance>, dims: seq<Dim>)
    requires forall j | 0 <= j < |records| :: InBox(Tuple(records[j], dims), dims)
    requires AllHit(records, dims)
    ensures |records| == Product(dims) <==> TuplesDistinct(records, dims)
  {
    var places := Places(records, dims);
    AllPlacesHit(records, dims);
    CardinalityMonotone(Below(Product(dims)), Elements(places));
    if |records| == Product(dims) {
      forall i: nat, j: nat | i < j < |records| ensures Tuple(records[i], dims) != Tuple(records[j], dims) {
        if Tuple(records[i], dims) == Tuple(records[j], dims) {
          RepeatShrinks(places, i, j);
        }
      }
    }
    if TuplesDistinct(records, dims) {
      forall i: nat, j: nat | i < j < |places| ensures places[i] != places[j] {
        if places[i] == places[j] {
          RankInjective(Tuple(records[i], dims), Tuple(records[j], dims), dims);
        }
      }
      DistinctElements(places);
      forall k | k in Elements(places) ensures k in Below(Product(dims)) {
        var j :| 0 <= j < |places| && places[j] == k;
        RankInRange(Tuple(records[j], dims), dims);
      }
      CardinalityMonotone(Elements(places), Below(Product(dims)));
    }
  }
}
