/**
 The dimension-presence tree on the heap: nodes own their children and are grown, marked and
 listed by recursive calls.
 */
module DimPresence {
  import opened DimTree

  /** What the listing writes to: the report so far and the coordinates on the way down. */
  class Report {
    var lines: seq<Line>
    var stack: seq<Coord>

    constructor ()
      ensures lines == [] && stack == []
    {
      lines, stack := [], [];
    }
  }

  class Presence {
    var vectorPos: Coord
    var subVectors: seq<Presence>
    var hasValue: bool
    /** The value of the tree below this node, and the nodes it consists of. */
    ghost var model: Tree
    ghost var Repr: set<Presence>

    ghost predicate Valid()
      reads this, Repr
      decreases Repr
    {
      && this in Repr
      && model.at == vectorPos && model.hasValue == hasValue && |model.kids| == |subVectors|
      && (forall i | 0 <= i < |subVectors| ::
            && subVectors[i] in Repr && subVectors[i] in subVectors[i].Repr
            && subVectors[i].Repr <= Repr && this !in subVectors[i].Repr
            && subVectors[i].model == model.kids[i] && subVectors[i].Valid())
      && (forall i, j | 0 <= i < j < |subVectors| :: subVectors[i].Repr !! subVectors[j].Repr)
    }

    constructor (pos: Coord)
      ensures Valid() && model == Leaf(pos) && fresh(Repr)
    {
      vectorPos, subVectors, hasValue := pos, [], false;
      model, Repr := Leaf(pos), {this};
    }

    method MaybeForward(dim: Dim)
      requires Valid()
      modifies Repr
      ensures Valid() && model == Forward(old(model), dim) && fresh(Repr - old(Repr))
      decreases model, 2
    {
      if subVectors == [] {
        AddLeaves(dim);
      } else {
        ForwardAll(dim);
      }
    }

    method AddLeaves(dim: Dim)
      requires Valid() && subVectors == []
      modifies this
      ensures Valid() && model == Forward(old(model), dim) && fresh(Repr - old(Repr))
    {
      for i := 0 to dim.size
        invariant Valid() && fresh(Repr - old(Repr))
        invariant model == old(model).(kids := seq(i, k requires 0 <= k < i => NewLeaf(dim, k)))
      {
        var leaf := new Presence(Coord(dim, i));
        subVectors := subVectors + [leaf];
        model := model.(kids := model.kids + [leaf.model]);
        Repr := Repr + leaf.Repr;
      }
    }

    method ForwardAll(dim: Dim)
      requires Valid() && subVectors != []
      modifies Repr
      ensures Valid() && model == Forward(old(model), dim) && fresh(Repr - old(Repr))
      decreases model, 1
    {
      ghost var before := model;
      for i := 0 to |subVectors|
        invariant Valid() && subVectors == old(subVectors) && fresh(Repr - old(Repr))
        invariant model.at == before.at && model.hasValue == before.hasValue && |model.kids| == |before.kids|
        invariant forall j | 0 <= j < i :: model.kids[j] == Forward(before.kids[j], dim)
        invariant forall j | i <= j < |subVectors| :: model.kids[j] == before.kids[j]
        invariant forall j | i <= j < |subVectors| :: subVectors[j].Repr <= old(Repr) - {this}
      {
        ForwardKid(i, dim);
      }
    }

    method ForwardKid(i: nat, dim: Dim)
      requires Valid() && i < |subVectors|
      modifies Repr
      ensures Valid() && subVectors == old(subVectors) && fresh(Repr - old(Repr))
      ensures i < |old(model.kids)|
      ensures model == old(model).(kids := old(model.kids)[i := Forward(old(model.kids)[i], dim)])
      ensures forall j | 0 <= j < |subVectors| && j != i :: subVectors[j].Repr == old(subVectors[j].Repr)
      decreases model.kids[i], 3
    {
      subVectors[i].MaybeForward(dim);
      model := model.(kids := model.kids[i := subVectors[i].model]);
      Repr := Repr + subVectors[i].Repr;
    }

    /** Follows the record's positions down to a leaf; false when one is out of range. */
    method MarkSeen(r: Instance) returns (ok: bool)
      requires Valid()
      modifies Repr
      ensures Valid() && Repr == old(Repr)
      ensures ok <==> Mark(old(model), r).Some?
      ensures model == MarkOrKeep(old(model), r)
      decreases Repr, 1
    {
      if subVectors == [] {
        hasValue := true;
        model := model.(hasValue := true);
        return true;
      }
      var pos := Position(r, subVectors[0].vectorPos.dim.id);
      if pos >= |subVectors| {
        return false;
      }
      ok := MarkKid(pos, r);
    }

    /** Marks inside one child. */
    method MarkKid(i: nat, r: Instance) returns (ok: bool)
      requires Valid() && i < |subVectors|
      modifies Repr
      ensures Valid() && Repr == old(Repr)
      ensures i < |old(model.kids)|
      ensures ok <==> Mark(old(model.kids)[i], r).Some?
      ensures model == old(model).(kids := old(model.kids)[i := MarkOrKeep(old(model.kids)[i], r)])
      decreases Repr, 0
    {
      ok := subVectors[i].MarkSeen(r);
      model := model.(kids := model.kids[i := subVectors[i].model]);
    }

    /** Lists every leaf with its coordinates; the stack is as before when the call returns. */
    method CheckSeen(report: Report) returns (ret: bool)
      requires Valid()
      modifies report
      ensures report.stack == old(report.stack)
      ensures report.lines == old(report.lines) + Lines(model, old(report.stack))
      ensures ret <==> AllSeen(model)
      decreases Repr, 1
    {
      ret := true;
      if subVectors == [] {
        if !hasValue {
          ret := false;
        }
        report.lines := report.lines + [Line(hasValue, report.stack)];
        return;
      }
      for i := 0 to |subVectors|
        invariant report.stack == old(report.stack)
        invariant report.lines == old(report.lines) + LinesOf(model, old(report.stack), i)
        invariant ret <==> forall j | 0 <= j < i :: AllSeen(model.kids[j])
      {
        var seen := CheckKid(i, report);
        if !seen {
          ret := false;
        }
      }
    }

    /** Lists one child, its position being on the stack meanwhile. */
    method CheckKid(i: nat, report: Report) returns (seen: bool)
      requires Valid() && i < |subVectors|
      modifies report
      ensures report.stack == old(report.stack)
      ensures report.lines == old(report.lines) + Lines(model.kids[i], old(report.stack) + [model.kids[i].at])
      ensures seen <==> AllSeen(model.kids[i])
      decreases Repr, 0
    {
      report.stack := report.stack + [subVectors[i].vectorPos];
      seen := subVectors[i].CheckSeen(report);
      report.stack := report.stack[..|report.stack| - 1];
    }
  }

  /** The tree of a counter, grown one dimension at a time. */
  method Grow(dims: seq<Dim>) returns (root: Presence)
    ensures root.Valid() && root.model == Build(dims) && fresh(root.Repr)
  {
    root := new Presence(ROOT.at);
    for i := 0 to |dims|
      invariant root.Valid() && root.model == Build(dims[..i]) && fresh(root.Repr)
    {
      assert dims[..i + 1][..i] == dims[..i];
      root.MaybeForward(dims[i]);
    }
    assert dims[..|dims|] == dims;
  }
}
