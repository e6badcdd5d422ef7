/** Merging command-line arguments with those of an input file. */
module Arguments {

  datatype Value = Absent | Text(s: string) | Texts(list: seq<string>) | Flag(b: bool) | Number(n: int)

  datatype Merged = Conflict(key: string) | Data(data: map<string, Value>)

  type Args = map<string, Value>

  /** A value is set when it is there and not None. */
  function Attr(args: Args, key: string): Value {
    if key in args then args[key] else Absent
  }

  /** Equality of values: booleans equal the numbers 1 and 0. */
  predicate Equal(a: Value, b: Value) {
    AsNumber(a) == AsNumber(b)
  }

  function AsNumber(v: Value): Value {
    if v.Flag? then Number(if v.b then 1 else 0) else v
  }

  /** Nothing but equal values are equal, except for a boolean and the number it stands for. */
  lemma {:induction false} EqualExactly(a: Value, b: Value)
    ensures Equal(a, b) <==>
      a == b || (a == Flag(true) && b == Number(1)) || (a == Number(1) && b == Flag(true))
      || (a == Flag(false) && b == Number(0)) || (a == Number(0) && b == Flag(false))
  {
  }

  ghost predicate Conflicting(cmd: Args, inp: Args, key: string) {
    !Attr(cmd, key).Absent? && !Attr(inp, key).Absent? && !Equal(Attr(cmd, key), Attr(inp, key))
  }

  function Chosen(cmd: Args, inp: Args, key: string): Value {
    if !Attr(cmd, key).Absent? then Attr(cmd, key) else Attr(inp, key)
  }

  const RANGE: string := "kernel_iteration_range"

  /** A range given as one string becomes a list of one. */
  function Patched(key: string, v: Value): Value {
    if key == RANGE && v.Text? then Texts([v.s]) else v
  }

  /** Visits the keys in any order, as the set of keys is visited. */
  method GetArgs(cmd: Args, inp: Args) returns (m: Merged)
    ensures m.Conflict? <==> exists key :: Conflicting(cmd, inp, key)
    ensures m.Conflict? ==> Conflicting(cmd, inp, m.key)
    ensures m.Data? ==>
      m.data.Keys == cmd.Keys + inp.Keys
      && forall key | key in m.data :: m.data[key] == Patched(key, Chosen(cmd, inp, key))
    ensures m.Data? ==> forall key | key in m.data && key != "kernel_iteration_range" ::
      m.data[key] == if key in cmd && cmd[key] != Absent then cmd[key] else if key in inp then inp[key] else Absent
    ensures m.Data? && "kernel_iteration_range" in m.data ==>
      var key := "kernel_iteration_range";
      var v := if key in cmd && cmd[key] != Absent then cmd[key] else if key in inp then inp[key] else Absent;
      m.data["kernel_iteration_range"] == if v.Text? then Texts([v.s]) else v
  {
    var todo := cmd.Keys + inp.Keys;
    var data: map<string, Value> := map[];
    while todo != {}
      invariant todo <= cmd.Keys + inp.Keys && data.Keys == cmd.Keys + inp.Keys - todo
      invariant forall key | key in data :: data[key] == Chosen(cmd, inp, key) && !Conflicting(cmd, inp, key)
    {
      var key :| key in todo;
      var c, i := Attr(cmd, key), Attr(inp, key);
      if !c.Absent? && !i.Absent? && !Equal(c, i) {
        assert Conflicting(cmd, inp, key);
        return Conflict(key);
      }
      data := data[key := if !c.Absent? then c else if !i.Absent? then i else Absent];
      todo := todo - {key};
    }
    assert forall key | Conflicting(cmd, inp, key) :: key in data;
    m := Data(map key | key in data :: Patched(key, data[key]));
  }
}
