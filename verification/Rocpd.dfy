/**
 Merging the JSON results of several runs into one relational database. Every input numbers its
 calls from its own counter, so the merge renumbers them with running offsets; the join tables
 must then connect each operation with the call of its own input and with no other.
 */
module Rocpd {

  datatype ApiRecord = ApiRecord(corr: nat, thread: int, start: int, end: int)

  datatype AsyncRecord = AsyncRecord(corr: nat, start: int, end: int)

  /** One process's results: a list of records per traced API (HIP, HSA, marker, RCCL, in this
      order), kernel dispatches and memory copies. */
  datatype Input = Input(
    pid: int, initTime: int,
    apis: seq<seq<ApiRecord>>, dispatches: seq<AsyncRecord>, copies: seq<AsyncRecord>)

  datatype ApiRow = ApiRow(id: nat, pid: int, tid: int, start: int, end: int)

  datatype OpRow = OpRow(id: nat, sequenceId: nat, start: int, end: int)

  // ---------- what the merge is to produce ----------

  function Concat<T>(lists: seq<seq<T>>): seq<T> {
    if lists == [] then [] else Concat(lists[..|lists| - 1]) + lists[|lists| - 1]
  }

  function Calls(itr: Input): seq<ApiRecord> { Concat(itr.apis) }

  function Asyncs(itr: Input): seq<AsyncRecord> { itr.dispatches + itr.copies }

  function ToApiRow(itr: Input, offset: nat, r: ApiRecord): ApiRow {
    ApiRow(r.corr + offset, itr.pid, r.thread, r.start, r.end)
  }

  function ApiRows(itr: Input, offset: nat, rs: seq<ApiRecord>): (rows: seq<ApiRow>)
    ensures |rows| == |rs|
    ensures forall i | 0 <= i < |rs| :: rows[i] == ToApiRow(itr, offset, rs[i])
    ensures forall i | 0 <= i < |rs| ::
              && rows[i].id == rs[i].corr + offset && rows[i].pid == itr.pid && rows[i].tid == rs[i].thread
              && rows[i].start == rs[i].start && rows[i].end == rs[i].end
  {
    seq(|rs|, i requires 0 <= i < |rs| => ToApiRow(itr, offset, rs[i]))
  }

  function OpRows(offset: nat, first: nat, rs: seq<AsyncRecord>): (rows: seq<OpRow>)
    ensures |rows| == |rs|
    ensures forall i | 0 <= i < |rs| :: rows[i] == OpRow(first + i, rs[i].corr + offset, rs[i].start, rs[i].end)
  {
    seq(|rs|, i requires 0 <= i < |rs| => OpRow(first + i, rs[i].corr + offset, rs[i].start, rs[i].end))
  }

  /** The largest id among the rows, 0 if there are none. */
  function MaxId(rows: seq<ApiRow>): nat {
    if rows == [] then 0
    else
      var m := MaxId(rows[..|rows| - 1]);
      if m <= rows[|rows| - 1].id then rows[|rows| - 1].id else m
  }

  lemma {:induction false} MaxIdBounds(rows: seq<ApiRow>)
    ensures forall i | 0 <= i < |rows| :: rows[i].id <= MaxId(rows)
    ensures rows != [] ==> exists i :: 0 <= i < |rows| && rows[i].id == MaxId(rows)
  {
    if rows != [] {
      var front := rows[..|rows| - 1];
      MaxIdBounds(front);
      assert front == [] ==> MaxId(front) == 0;
      if MaxId(rows) != rows[|rows| - 1].id {
        var i :| 0 <= i < |front| && front[i].id == MaxId(front);
        assert rows[i].id == MaxId(rows);
      }
      assert forall i | 0 <= i < |front| :: rows[i] == front[i];
    }
  }

  /** Timestamps relative to the start of the traced process. */
  function Normalized(itr: Input): Input {
    itr.(apis := ShiftLists(itr.apis, itr.initTime),
         dispatches := ShiftAsyncs(itr.dispatches, itr.initTime),
         copies := ShiftAsyncs(itr.copies, itr.initTime))
  }

  function ShiftLists(lists: seq<seq<ApiRecord>>, t: int): seq<seq<ApiRecord>> {
    seq(|lists|, i requires 0 <= i < |lists| => ShiftCalls(lists[i], t))
  }

  function ShiftCalls(rs: seq<ApiRecord>, t: int): seq<ApiRecord> {
    seq(|rs|, i requires 0 <= i < |rs| => rs[i].(start := rs[i].start - t, end := rs[i].end - t))
  }

  function ShiftAsyncs(rs: seq<AsyncRecord>, t: int): seq<AsyncRecord> {
    seq(|rs|, i requires 0 <= i < |rs| => rs[i].(start := rs[i].start - t, end := rs[i].end - t))
  }

  /** Correlation-id offset in force for input k. */
  function Offset(inputs: seq<Input>, k: nat): nat
    requires k <= |inputs|
    decreases k, 0
  {
    if k == 0 then 0 else MaxId(RowsOf(inputs, k - 1))
  }

  /** API rows of input k, renumbered. */
  function RowsOf(inputs: seq<Input>, k: nat): seq<ApiRow>
    requires k < |inputs|
    decreases k, 1
  {
    ApiRows(inputs[k], Offset(inputs, k), Calls(inputs[k]))
  }

  /** The api table after the first k inputs. */
  function ApiTable(inputs: seq<Input>, k: nat): seq<ApiRow>
    requires k <= |inputs|
  {
    if k == 0 then [] else ApiTable(inputs, k - 1) + RowsOf(inputs, k - 1)
  }

  /** The op table after the first k inputs. */
  function OpTable(inputs: seq<Input>, k: nat): seq<OpRow>
    requires k <= |inputs|
  {
    if k == 0 then []
    else OpTable(inputs, k - 1) + OpRows(Offset(inputs, k - 1), |OpTable(inputs, k - 1)|, Asyncs(inputs[k - 1]))
  }

  /** The calls that the kernel rows of the first k inputs refer to. */
  function KernelTable(inputs: seq<Input>, k: nat): seq<nat>
    requires k <= |inputs|
  {
    if k == 0 then []
    else KernelTable(inputs, k - 1) + Renumbered(inputs[k - 1].dispatches, Offset(inputs, k - 1))
  }

  /** The calls that the copy rows of the first k inputs refer to. */
  function CopyTable(inputs: seq<Input>, k: nat): seq<nat>
    requires k <= |inputs|
  {
    if k == 0 then []
    else CopyTable(inputs, k - 1) + Renumbered(inputs[k - 1].copies, Offset(inputs, k - 1))
  }

  function LinkTable(ops: seq<OpRow>): (links: seq<(nat, nat)>)
    ensures |links| == |ops| && forall i | 0 <= i < |ops| :: links[i] == (ops[i].sequenceId, ops[i].id)
  {
    seq(|ops|, i requires 0 <= i < |ops| => (ops[i].sequenceId, ops[i].id))
  }

  ghost predicate DistinctIds(rows: seq<ApiRow>) {
    forall i, j | 0 <= i < j < |rows| :: rows[i].id != rows[j].id
  }

  ghost predicate Numbered(ops: seq<OpRow>) {
    forall i | 0 <= i < |ops| :: ops[i].id == i
  }

  // ---------- the database and the merge ----------

  class Database {
    var api: seq<ApiRow>
    var op: seq<OpRow>
    /** (api id, op id) pairs. */
    var apiOps: seq<(nat, nat)>
    /** api ids of the kernel launches and of the copies. */
    var kernelApi: seq<nat>
    var copyApi: seq<nat>

    constructor ()
      ensures api == [] && op == [] && apiOps == [] && kernelApi == [] && copyApi == []
    {
      api, op, apiOps, kernelApi, copyApi := [], [], [], [], [];
    }

    /** INSERT INTO rocpd_api: refused when the primary key is taken. */
    method InsertApi(row: ApiRow) returns (ok: bool)
      modifies this`api
      ensures ok <==> !Taken(old(api), row.id)
      ensures api == if ok then old(api) + [row] else old(api)
    {
      ok := !Taken(api, row.id);
      if ok {
        api := api + [row];
      }
    }

    /** Adds one API record to those of the same input that `done` lists. */
    method InsertApiRecord(itr: Input, corrIdOffset: nat, r: ApiRecord, max: nat,
                           ghost before: seq<ApiRow>, ghost done: seq<ApiRecord>)
      returns (ok: bool, maxCorrId: nat)
      requires Inserted(before, itr, corrIdOffset, done, api, max)
      modifies this`api
      ensures ok ==> Inserted(before, itr, corrIdOffset, done + [r], api, maxCorrId)
      ensures !ok ==> !DistinctIds(before + ApiRows(itr, corrIdOffset, done + [r]))
    {
      var internal := r.corr + corrIdOffset;
      InsertedStep(before, itr, corrIdOffset, done, r, api, max);
      ok := InsertApi(ToApiRow(itr, corrIdOffset, r));
      maxCorrId := if max <= internal then internal else max;
    }

    /** Adds one API's records. */
    method InsertApiList(itr: Input, corrIdOffset: nat, list: seq<ApiRecord>, max: nat,
                         ghost before: seq<ApiRow>, ghost done: seq<ApiRecord>)
      returns (ok: bool, maxCorrId: nat)
      requires Inserted(before, itr, corrIdOffset, done, api, max)
      modifies this`api
      ensures ok ==> Inserted(before, itr, corrIdOffset, done + list, api, maxCorrId)
      ensures !ok ==> !DistinctIds(before + ApiRows(itr, corrIdOffset, done + list))
    {
      ok, maxCorrId := true, max;
      assert done + list[..0] == done;
      for h := 0 to |list|
        invariant ok && Inserted(before, itr, corrIdOffset, done + list[..h], api, maxCorrId)
      {
        ok, maxCorrId := InsertApiRecord(itr, corrIdOffset, list[h], maxCorrId, before, done + list[..h]);
        assert done + list[..h] + [list[h]] == done + list[..h + 1];
        if !ok {
          DuplicateStays(itr, corrIdOffset, before, done + list[..h + 1], done + list);
          return;
        }
      }
      assert list[..|list|] == list;
    }

    /** Adds the API records of one input; `ok` is false if an id was already taken. */
    method InsertApiData(itr: Input, corrIdOffset: nat) returns (ok: bool, maxCorrId: nat)
      requires DistinctIds(api)
      modifies this`api
      ensures ok <==> DistinctIds(old(api) + ApiRows(itr, corrIdOffset, Calls(itr)))
      ensures ok ==> api == old(api) + ApiRows(itr, corrIdOffset, Calls(itr))
      ensures ok ==> maxCorrId == MaxId(ApiRows(itr, corrIdOffset, Calls(itr)))
    {
      ok, maxCorrId := true, 0;
      for a := 0 to |itr.apis|
        invariant ok && Inserted(old(api), itr, corrIdOffset, Concat(itr.apis[..a]), api, maxCorrId)
      {
        assert itr.apis[..a + 1][..a] == itr.apis[..a];
        ok, maxCorrId := InsertApiList(itr, corrIdOffset, itr.apis[a], maxCorrId, old(api), Concat(itr.apis[..a]));
        if !ok {
          ConcatPrefix(itr.apis, a + 1);
          DuplicateStays(itr, corrIdOffset, old(api), Concat(itr.apis[..a + 1]), Calls(itr));
          return;
        }
      }
      assert itr.apis[..|itr.apis|] == itr.apis;
    }

    /** INSERT INTO rocpd_op: refused when the primary key is taken. */
    method InsertOp(row: OpRow) returns (ok: bool)
      modifies this`op
      ensures ok <==> forall i | 0 <= i < |old(op)| :: old(op)[i].id != row.id
      ensures op == if ok then old(op) + [row] else old(op)
    {
      ok := forall i | 0 <= i < |op| :: op[i].id != row.id;
      if ok {
        op := op + [row];
      }
    }

    /** The tables hold what was there before and the `ops` added since, with their links. */
    ghost predicate Extends(op0: seq<OpRow>, links0: seq<(nat, nat)>, ops: seq<OpRow>)
      reads this
    {
      op == op0 + ops && apiOps == links0 + LinkTable(ops) && Numbered(ops) && FreeBelow(op0, |ops|)
    }

    /** Adds an operation under the next id and the link from its call; refused if an operation from
        before the merge has the id. */
    method InsertLinkedOp(r: AsyncRecord, internal: nat, opId: nat,
                          ghost op0: seq<OpRow>, ghost links0: seq<(nat, nat)>, ghost ops: seq<OpRow>)
      returns (ok: bool)
      requires Extends(op0, links0, ops) && opId == |ops|
      modifies this`op, this`apiOps
      ensures ok <==> FreeBelow(op0, opId + 1)
      ensures ok ==> Extends(op0, links0, ops + [OpRow(opId, internal, r.start, r.end)])
    {
      ok := InsertOp(OpRow(opId, internal, r.start, r.end));
      FreeStep(op0, ops);
      if ok {
        apiOps := apiOps + [(internal, opId)];
      }
    }

    /** Adds the kernel dispatches: a kernel row, an op row and a link row each. */
    method InsertDispatches(rs: seq<AsyncRecord>, corrIdOffset: nat, opIdOffset: nat,
                            ghost op0: seq<OpRow>, ghost links0: seq<(nat, nat)>, ghost ops: seq<OpRow>)
      returns (ok: bool, opId: nat)
      requires Extends(op0, links0, ops) && opIdOffset == |ops|
      modifies this`op, this`apiOps, this`kernelApi
      ensures ok <==> FreeBelow(op0, opIdOffset + |rs|)
      ensures ok ==> Extends(op0, links0, ops + OpRows(corrIdOffset, opIdOffset, rs)) && opId == opIdOffset + |rs|
      ensures ok ==> kernelApi == old(kernelApi) + Renumbered(rs, corrIdOffset)
    {
      ok, opId := true, opIdOffset;
      assert ops + OpRows(corrIdOffset, opIdOffset, rs[..0]) == ops;
      for k := 0 to |rs|
        invariant ok && opId == opIdOffset + k
        invariant Extends(op0, links0, ops + OpRows(corrIdOffset, opIdOffset, rs[..k]))
        invariant kernelApi == old(kernelApi) + Renumbered(rs[..k], corrIdOffset)
      {
        var internal := rs[k].corr + corrIdOffset;
        kernelApi := kernelApi + [internal];
        RowsAppend(rs, corrIdOffset, opIdOffset, k);
        ghost var now := ops + OpRows(corrIdOffset, opIdOffset, rs[..k]);
        assert now + [OpRow(opId, internal, rs[k].start, rs[k].end)] ==
               ops + OpRows(corrIdOffset, opIdOffset, rs[..k + 1]);
        ok := InsertLinkedOp(rs[k], internal, opId, op0, links0, now);
        if !ok {
          return;
        }
        opId := opId + 1;
      }
      assert rs[..|rs|] == rs;
    }

    /** Adds the memory copies: a copy row, an op row and a link row each. */
    method InsertCopies(rs: seq<AsyncRecord>, corrIdOffset: nat, opIdOffset: nat,
                        ghost op0: seq<OpRow>, ghost links0: seq<(nat, nat)>, ghost ops: seq<OpRow>)
      returns (ok: bool, opId: nat)
      requires Extends(op0, links0, ops) && opIdOffset == |ops|
      modifies this`op, this`apiOps, this`copyApi
      ensures ok <==> FreeBelow(op0, opIdOffset + |rs|)
      ensures ok ==> Extends(op0, links0, ops + OpRows(corrIdOffset, opIdOffset, rs)) && opId == opIdOffset + |rs|
      ensures ok ==> copyApi == old(copyApi) + Renumbered(rs, corrIdOffset)
    {
      ok, opId := true, opIdOffset;
      assert ops + OpRows(corrIdOffset, opIdOffset, rs[..0]) == ops;
      for k := 0 to |rs|
        invariant ok && opId == opIdOffset + k
        invariant Extends(op0, links0, ops + OpRows(corrIdOffset, opIdOffset, rs[..k]))
        invariant copyApi == old(copyApi) + Renumbered(rs[..k], corrIdOffset)
      {
        var internal := rs[k].corr + corrIdOffset;
        copyApi := copyApi + [internal];
        RowsAppend(rs, corrIdOffset, opIdOffset, k);
        ghost var now := ops + OpRows(corrIdOffset, opIdOffset, rs[..k]);
        assert now + [OpRow(opId, internal, rs[k].start, rs[k].end)] ==
               ops + OpRows(corrIdOffset, opIdOffset, rs[..k + 1]);
        ok := InsertLinkedOp(rs[k], internal, opId, op0, links0, now);
        if !ok {
          return;
        }
        opId := opId + 1;
      }
      assert rs[..|rs|] == rs;
    }

    /** Adds the kernel dispatches and then the memory copies of one input. */
    method InsertAsyncData(itr: Input, corrIdOffset: nat, opIdOffset: nat,
                           ghost op0: seq<OpRow>, ghost links0: seq<(nat, nat)>, ghost ops: seq<OpRow>)
      returns (ok: bool, opId: nat)
      requires Extends(op0, links0, ops) && opIdOffset == |ops|
      modifies this`op, this`apiOps, this`kernelApi, this`copyApi
      ensures ok <==> FreeBelow(op0, opIdOffset + |Asyncs(itr)|)
      ensures ok ==> Extends(op0, links0, ops + OpRows(corrIdOffset, opIdOffset, Asyncs(itr)))
      ensures ok ==> opId == opIdOffset + |Asyncs(itr)|
      ensures ok ==> kernelApi == old(kernelApi) + Renumbered(itr.dispatches, corrIdOffset)
      ensures ok ==> copyApi == old(copyApi) + Renumbered(itr.copies, corrIdOffset)
    {
      ok, opId := InsertDispatches(itr.dispatches, corrIdOffset, opIdOffset, op0, links0, ops);
      if !ok {
        return;
      }
      ghost var now := ops + OpRows(corrIdOffset, opIdOffset, itr.dispatches);
      assert now + OpRows(corrIdOffset, opId, itr.copies) == ops + OpRows(corrIdOffset, opIdOffset, Asyncs(itr));
      ok, opId := InsertCopies(itr.copies, corrIdOffset, opId, op0, links0, now);
    }

    ghost function Snapshot(): Tables
      reads this
    {
      Tables(api, op, apiOps, kernelApi, copyApi)
    }

    /** The first k inputs have been added to what was there. */
    ghost predicate Holds(base: Tables, ins: seq<Input>, k: nat)
      requires k <= |ins|
      reads this
    {
      && DistinctIds(api) && api == base.api + ApiTable(ins, k)
      && Extends(base.op, base.apiOps, OpTable(ins, k))
      && kernelApi == base.kernelApi + KernelTable(ins, k)
      && copyApi == base.copyApi + CopyTable(ins, k)
    }

    lemma {:induction false} NothingAdded(ins: seq<Input>)
      requires DistinctIds(api)
      ensures Holds(Snapshot(), ins, 0)
    {
      assert api + [] == api && op + [] == op && apiOps + [] == apiOps;
      assert kernelApi + [] == kernelApi && copyApi + [] == copyApi;
    }

    /** Adds input k, the earlier ones being in the tables; refused if one of its API or operation ids
        is taken. */
    method InsertInput(itr: Input, corrIdOffset: nat, opIdOffset: nat, ghost ins: seq<Input>, ghost k: nat,
                       ghost base: Tables)
      returns (ok: bool, nextCorrId: nat, nextOpId: nat)
      requires k < |ins| && itr == ins[k] && corrIdOffset == Offset(ins, k) && opIdOffset == |OpTable(ins, k)|
      requires Holds(base, ins, k)
      modifies this
      ensures ok <==> DistinctIds(base.api + ApiTable(ins, k + 1)) && FreeBelow(base.op, |OpTable(ins, k + 1)|)
      ensures ok ==> Holds(base, ins, k + 1)
      ensures ok ==> nextCorrId == Offset(ins, k + 1) && nextOpId == |OpTable(ins, k + 1)|
    {
      TablesStep(ins, k, base.api, api, OpTable(ins, k));
      RowsStep(ins, k, base.kernelApi, base.copyApi);
      nextOpId := opIdOffset;
      ok, nextCorrId := InsertApiData(itr, corrIdOffset);
      if ok {
        ok, nextOpId := InsertAsyncData(itr, corrIdOffset, opIdOffset, base.op, base.apiOps, OpTable(ins, k));
      }
    }

    /** Merges the inputs in order into whatever the database holds. `ok` is false, and the merge
        stops, at the first API or operation id that an earlier row already has. */
    method Merge(inputs: seq<Input>, normalizeTimestamps: bool) returns (ok: bool)
      requires DistinctIds(api)
      modifies this
      ensures var ins, base := Prepared(inputs, normalizeTimestamps), old(Snapshot());
        && (ok <==> DistinctIds(base.api + ApiTable(ins, |ins|)) && FreeBelow(base.op, |OpTable(ins, |ins|)|))
        && (ok ==> api == base.api + ApiTable(ins, |ins|) && op == base.op + OpTable(ins, |ins|)
                   && apiOps == base.apiOps + LinkTable(OpTable(ins, |ins|))
                   && kernelApi == base.kernelApi + KernelTable(ins, |ins|)
                   && copyApi == base.copyApi + CopyTable(ins, |ins|))
    {
      ok := true;
      var corrIdOffset, opIdOffset := 0, 0;
      ghost var ins, base := Prepared(inputs, normalizeTimestamps), Snapshot();
      NothingAdded(ins);
      for k := 0 to |inputs|
        invariant ok && corrIdOffset == Offset(ins, k) && opIdOffset == |OpTable(ins, k)|
        invariant Holds(base, ins, k)
      {
        var ditr := if normalizeTimestamps then Normalized(inputs[k]) else inputs[k];
        var nextCorrId;
        ok, nextCorrId, opIdOffset := InsertInput(ditr, corrIdOffset, opIdOffset, ins, k, base);
        if !ok {
          RefusedInTables(base.api, base.op, ins, k + 1);
          return;
        }
        corrIdOffset := nextCorrId;
      }
    }
  }

  /** The contents of all tables. */
  datatype Tables = Tables(
    api: seq<ApiRow>, op: seq<OpRow>, apiOps: seq<(nat, nat)>, kernelApi: seq<nat>, copyApi: seq<nat>)

  lemma {:induction false} RowsStep(ins: seq<Input>, k: nat, kernels0: seq<nat>, copies0: seq<nat>)
    requires k < |ins|
    ensures kernels0 + KernelTable(ins, k + 1) ==
            kernels0 + KernelTable(ins, k) + Renumbered(ins[k].dispatches, Offset(ins, k))
    ensures copies0 + CopyTable(ins, k + 1) ==
            copies0 + CopyTable(ins, k) + Renumbered(ins[k].copies, Offset(ins, k))
  {
  }

  /** The tables after one more input. */
  lemma {:induction false} TablesStep(ins: seq<Input>, k: nat, api0: seq<ApiRow>, api: seq<ApiRow>, ops: seq<OpRow>)
    requires k < |ins| && api == api0 + ApiTable(ins, k) && ops == OpTable(ins, k)
    ensures api0 + ApiTable(ins, k + 1) == api + ApiRows(ins[k], Offset(ins, k), Calls(ins[k]))
    ensures OpTable(ins, k + 1) == ops + OpRows(Offset(ins, k), |ops|, Asyncs(ins[k]))
    ensures Offset(ins, k + 1) == MaxId(ApiRows(ins[k], Offset(ins, k), Calls(ins[k])))
  {
    assert api0 + (ApiTable(ins, k) + RowsOf(ins, k)) == api + RowsOf(ins, k);
  }

  /** What is refused after k inputs is refused after all. */
  lemma {:induction false} RefusedInTables(api0: seq<ApiRow>, op0: seq<OpRow>, ins: seq<Input>, k: nat)
    requires k <= |ins| && (!DistinctIds(api0 + ApiTable(ins, k)) || !FreeBelow(op0, |OpTable(ins, k)|))
    ensures !DistinctIds(api0 + ApiTable(ins, |ins|)) || !FreeBelow(op0, |OpTable(ins, |ins|)|)
  {
    if DistinctIds(api0 + ApiTable(ins, k)) {
      OpsGrow(ins, k);
      var i :| 0 <= i < |op0| && op0[i].id < |OpTable(ins, k)|;
      assert op0[i].id < |OpTable(ins, |ins|)|;
    } else {
      DuplicateInTable(api0, ins, k);
    }
  }

  /** No row has an id below n. */
  predicate FreeBelow(ops: seq<OpRow>, n: nat) {
    forall i | 0 <= i < |ops| :: ops[i].id >= n
  }

  lemma {:induction false} FreeStep(op0: seq<OpRow>, ops: seq<OpRow>)
    requires Numbered(ops) && FreeBelow(op0, |ops|)
    ensures FreeBelow(op0, |ops| + 1) <==> forall i | 0 <= i < |op0 + ops| :: (op0 + ops)[i].id != |ops|
  {
    if FreeBelow(op0, |ops| + 1) {
      forall i | 0 <= i < |op0 + ops| ensures (op0 + ops)[i].id != |ops| {
        if i >= |op0| {
          assert ops[i - |op0|].id == i - |op0|;
        }
      }
    } else {
      var i :| 0 <= i < |op0| && op0[i].id < |ops| + 1;
      assert (op0 + ops)[i].id == |ops|;
    }
  }

  lemma {:induction false} OpsGrow(ins: seq<Input>, k: nat)
    requires k <= |ins|
    ensures |OpTable(ins, k)| <= |OpTable(ins, |ins|)|
    decreases |ins| - k
  {
    if k < |ins| {
      OpsGrow(ins, k + 1);
    }
  }

  /** Merging into a database that an earlier merge gave operations is refused as soon as there is an
      operation to add: both number them from 0. */
  lemma {:induction false} SecondMergeRefused(earlier: seq<Input>, later: seq<Input>)
    requires OpTable(earlier, |earlier|) != []
    ensures FreeBelow(OpTable(earlier, |earlier|), |OpTable(later, |later|)|) <==> OpTable(later, |later|) == []
  {
    OpsNumbered(earlier, |earlier|);
    assert OpTable(earlier, |earlier|)[0].id == 0;
  }

  lemma {:induction false} RowsAppend(rs: seq<AsyncRecord>, offset: nat, first: nat, k: nat)
    requires k < |rs|
    ensures OpRows(offset, first, rs[..k + 1]) ==
            OpRows(offset, first, rs[..k]) + [OpRow(first + k, rs[k].corr + offset, rs[k].start, rs[k].end)]
    ensures Renumbered(rs[..k + 1], offset) == Renumbered(rs[..k], offset) + [rs[k].corr + offset]
  {
  }

  function Renumbered(rs: seq<AsyncRecord>, offset: nat): seq<nat> {
    seq(|rs|, i requires 0 <= i < |rs| => rs[i].corr + offset)
  }

  function Prepared(inputs: seq<Input>, normalizeTimestamps: bool): (ins: seq<Input>)
    ensures |ins| == |inputs|
  {
    if normalizeTimestamps
    then seq(|inputs|, i requires 0 <= i < |inputs| => Normalized(inputs[i]))
    else inputs
  }

  lemma {:induction false} DuplicateInTable(api0: seq<ApiRow>, ins: seq<Input>, k: nat)
    requires k <= |ins| && !DistinctIds(api0 + ApiTable(ins, k))
    ensures !DistinctIds(api0 + ApiTable(ins, |ins|))
    decreases |ins| - k
  {
    if k < |ins| {
      assert ApiTable(ins, k + 1) == ApiTable(ins, k) + RowsOf(ins, k);
      DuplicatePrefix(api0 + ApiTable(ins, k), api0 + ApiTable(ins, k + 1));
      DuplicateInTable(api0, ins, k + 1);
    }
  }

  lemma {:induction false} DuplicatePrefix(some: seq<ApiRow>, all: seq<ApiRow>)
    requires some <= all && !DistinctIds(some)
    ensures !DistinctIds(all)
  {
    var i, j :| 0 <= i < j < |some| && some[i].id == some[j].id;
    assert all[i].id == all[j].id;
  }

  predicate Taken(rows: seq<ApiRow>, id: nat) {
    exists i | 0 <= i < |rows| :: rows[i].id == id
  }

  /** The records `done` of this input have been added to the api table. */
  ghost predicate Inserted(before: seq<ApiRow>, itr: Input, offset: nat, done: seq<ApiRecord>,
                           api: seq<ApiRow>, max: nat)
  {
    && DistinctIds(api)
    && api == before + ApiRows(itr, offset, done)
    && max == MaxId(ApiRows(itr, offset, done))
  }

  lemma {:induction false} InsertedStep(before: seq<ApiRow>, itr: Input, offset: nat, done: seq<ApiRecord>,
                                        r: ApiRecord, api: seq<ApiRow>, max: nat)
    requires Inserted(before, itr, offset, done, api, max)
    ensures !Taken(api, r.corr + offset) ==>
              Inserted(before, itr, offset, done + [r], api + [ToApiRow(itr, offset, r)],
                       if max <= r.corr + offset then r.corr + offset else max)
    ensures Taken(api, r.corr + offset) ==> !DistinctIds(before + ApiRows(itr, offset, done + [r]))
  {
    var row := ToApiRow(itr, offset, r);
    var rows, rows' := ApiRows(itr, offset, done), ApiRows(itr, offset, done + [r]);
    assert rows' == rows + [row] && rows'[..|rows|] == rows;
    assert before + rows' == api + [row];
    if i: nat :| i < |api| && api[i].id == row.id {
      assert (api + [row])[i].id == (api + [row])[|api|].id;
    }
  }

  lemma {:induction false} ConcatPrefix<T>(lists: seq<seq<T>>, a: nat)
    requires a <= |lists|
    ensures Concat(lists[..a]) <= Concat(lists)
  {
    if a == |lists| {
      assert lists[..a] == lists;
    } else {
      ConcatPrefix(lists[..|lists| - 1], a);
      assert lists[..|lists| - 1][..a] == lists[..a];
    }
  }

  /** A duplicate among the first records is a duplicate among all. */
  lemma {:induction false} DuplicateStays(itr: Input, offset: nat, before: seq<ApiRow>,
                                          done: seq<ApiRecord>, rs: seq<ApiRecord>)
    requires done <= rs && !DistinctIds(before + ApiRows(itr, offset, done))
    ensures !DistinctIds(before + ApiRows(itr, offset, rs))
  {
    assert ApiRows(itr, offset, done) <= ApiRows(itr, offset, rs);
    DuplicatePrefix(before + ApiRows(itr, offset, done), before + ApiRows(itr, offset, rs));
  }

  // ---------- positions: where each input's rows end up ----------

  /** Row i of input k in the api table. */
  function ApiPos(inputs: seq<Input>, k: nat, i: nat): nat
    requires k < |inputs|
  {
    |ApiTable(inputs, k)| + i
  }

  function OpPos(inputs: seq<Input>, k: nat, i: nat): nat
    requires k < |inputs|
  {
    |OpTable(inputs, k)| + i
  }

  predicate IsCall(inputs: seq<Input>, k: nat, i: nat) {
    k < |inputs| && i < |Calls(inputs[k])|
  }

  predicate IsAsync(inputs: seq<Input>, k: nat, i: nat) {
    k < |inputs| && i < |Asyncs(inputs[k])|
  }

  /** The row of a call is found at its position, whatever inputs follow. */
  lemma {:induction false} ApiAt(inputs: seq<Input>, n: nat, k: nat, i: nat)
    requires n <= |inputs| && IsCall(inputs, k, i) && k < n
    ensures ApiPos(inputs, k, i) < |ApiTable(inputs, n)|
    ensures
      var row, call := ApiTable(inputs, n)[ApiPos(inputs, k, i)], Calls(inputs[k])[i];
      && row.id == call.corr + Offset(inputs, k)
      && row.pid == inputs[k].pid && row.tid == call.thread
      && row.start == call.start && row.end == call.end
  {
    if k < n - 1 {
      ApiAt(inputs, n - 1, k, i);
    }
  }

  lemma {:induction false} OpAt(inputs: seq<Input>, n: nat, k: nat, i: nat)
    requires n <= |inputs| && IsAsync(inputs, k, i) && k < n
    ensures OpPos(inputs, k, i) < |OpTable(inputs, n)|
    ensures
      var row, r := OpTable(inputs, n)[OpPos(inputs, k, i)], Asyncs(inputs[k])[i];
      && row.id == OpPos(inputs, k, i) && row.sequenceId == r.corr + Offset(inputs, k)
      && row.start == r.start && row.end == r.end
  {
    if k < n - 1 {
      OpAt(inputs, n - 1, k, i);
    }
  }

  /** Every row of the api table is the row of one call. */
  lemma {:induction false} ApiOrigin(inputs: seq<Input>, n: nat, p: nat) returns (k: nat, i: nat)
    requires n <= |inputs| && p < |ApiTable(inputs, n)|
    ensures k < n && IsCall(inputs, k, i) && ApiPos(inputs, k, i) == p
  {
    if p >= |ApiTable(inputs, n - 1)| {
      k, i := n - 1, p - |ApiTable(inputs, n - 1)|;
    } else {
      k, i := ApiOrigin(inputs, n - 1, p);
    }
  }

  lemma {:induction false} OpOrigin(inputs: seq<Input>, n: nat, p: nat) returns (k: nat, i: nat)
    requires n <= |inputs| && p < |OpTable(inputs, n)|
    ensures k < n && IsAsync(inputs, k, i) && OpPos(inputs, k, i) == p
  {
    if p >= |OpTable(inputs, n - 1)| {
      k, i := n - 1, p - |OpTable(inputs, n - 1)|;
    } else {
      k, i := OpOrigin(inputs, n - 1, p);
    }
  }

  // ---------- when ids stay distinct ----------

  /** Correlation ids are positive and unique within an input. */
  ghost predicate OwnIds(itr: Input) {
    && (forall i | 0 <= i < |Calls(itr)| :: Calls(itr)[i].corr > 0)
    && (forall i, j | 0 <= i < j < |Calls(itr)| :: Calls(itr)[i].corr != Calls(itr)[j].corr)
  }

  ghost predicate AllOwnIds(inputs: seq<Input>) {
    forall k | 0 <= k < |inputs| :: OwnIds(inputs[k])
  }

  function HasCalls(itr: Input): bool { Calls(itr) != [] }

  /** No input without API records stands between two inputs that have some. */
  ghost predicate GapFree(shape: seq<bool>) {
    forall a, b, c | 0 <= a < b < c < |shape| && shape[a] && shape[c] :: shape[b]
  }

  function Shape(inputs: seq<Input>): (shape: seq<bool>)
    ensures |shape| == |inputs| && forall k | 0 <= k < |inputs| :: shape[k] == HasCalls(inputs[k])
  {
    seq(|inputs|, k requires 0 <= k < |inputs| => HasCalls(inputs[k]))
  }

  /** Across inputs that all have calls, the offset is never below an id given out before. */
  lemma {:induction false} OffsetsGrow(inputs: seq<Input>, k: nat, k': nat, i: nat)
    requires AllOwnIds(inputs) && IsCall(inputs, k, i) && k < k' <= |inputs|
    requires forall m | k <= m < k' :: HasCalls(inputs[m])
    ensures Calls(inputs[k])[i].corr + Offset(inputs, k) <= Offset(inputs, k')
  {
    var rows := RowsOf(inputs, k' - 1);
    MaxIdBounds(rows);
    if k' == k + 1 {
      assert rows[i].id <= MaxId(rows);
    } else {
      OffsetsGrow(inputs, k, k' - 1, i);
      assert rows[0].id <= MaxId(rows);
    }
  }

  /** Distinct calls get distinct ids. */
  lemma {:induction false} IdsDistinct(inputs: seq<Input>, k: nat, i: nat, k': nat, i': nat)
    requires AllOwnIds(inputs) && GapFree(Shape(inputs))
    requires IsCall(inputs, k, i) && IsCall(inputs, k', i') && (k < k' || (k == k' && i < i'))
    ensures Calls(inputs[k])[i].corr + Offset(inputs, k) != Calls(inputs[k'])[i'].corr + Offset(inputs, k')
  {
    if k < k' {
      var shape := Shape(inputs);
      assert forall m | k <= m < k' :: shape[m];
      OffsetsGrow(inputs, k, k', i);
    }
  }

  lemma {:induction false} GapFreeDistinct(inputs: seq<Input>)
    requires AllOwnIds(inputs) && GapFree(Shape(inputs))
    ensures DistinctIds(ApiTable(inputs, |inputs|))
  {
    var n := |inputs|;
    var table := ApiTable(inputs, n);
    forall p, p' | 0 <= p < p' < |table| ensures table[p].id != table[p'].id {
      var k, i := ApiOrigin(inputs, n, p);
      var k', i' := ApiOrigin(inputs, n, p');
      ApiAt(inputs, n, k, i);
      ApiAt(inputs, n, k', i');
      if k' < k {
        TableGrows(inputs, k', k);
      }
      IdsDistinct(inputs, k, i, k', i');
    }
  }

  lemma {:induction false} TableGrows(inputs: seq<Input>, k: nat, k': nat)
    requires k < k' <= |inputs|
    ensures |ApiTable(inputs, k)| + |Calls(inputs[k])| <= |ApiTable(inputs, k')|
  {
    if k + 1 < k' {
      TableGrows(inputs, k, k' - 1);
    }
  }

  /** Calls numbered 1, 2, ... as a process numbers them. */
  function Counted(has: bool): Input {
    Input(0, 0, [if has then [ApiRecord(1, 0, 0, 0)] else []], [], [])
  }

  /** Whatever ids the inputs use, the merge accepts them, exactly when the sequence of inputs has
      no gap: after an input without API records the offset starts again from 0. */
  lemma {:induction false} DistinctExactlyWithoutGaps(shape: seq<bool>)
    ensures (forall inputs | AllOwnIds(inputs) && Shape(inputs) == shape :: DistinctIds(ApiTable(inputs, |inputs|)))
       <==> GapFree(shape)
  {
    if GapFree(shape) {
      forall inputs | AllOwnIds(inputs) && Shape(inputs) == shape ensures DistinctIds(ApiTable(inputs, |inputs|)) {
        GapFreeDistinct(inputs);
      }
    } else {
      var inputs := CountedInputs(shape);
      GapCollides(inputs);
    }
  }

  /** Inputs of a given shape, each numbering its calls from 1. */
  lemma {:induction false} CountedInputs(shape: seq<bool>) returns (inputs: seq<Input>)
    ensures AllOwnIds(inputs) && Shape(inputs) == shape
    ensures forall k | 0 <= k < |inputs| && HasCalls(inputs[k]) :: Calls(inputs[k]) == [ApiRecord(1, 0, 0, 0)]
  {
    inputs := seq(|shape|, k requires 0 <= k < |shape| => Counted(shape[k]));
    forall k | 0 <= k < |shape| ensures Calls(inputs[k]) == if shape[k] then [ApiRecord(1, 0, 0, 0)] else [] {
      CountedCalls(shape[k]);
    }
    assert Shape(inputs) == shape;
  }

  lemma {:induction false} CountedCalls(has: bool)
    ensures Calls(Counted(has)) == if has then [ApiRecord(1, 0, 0, 0)] else []
  {
    var list := if has then [ApiRecord(1, 0, 0, 0)] else [];
    assert [list][..0] == [];
    assert Concat([list]) == Concat([]) + list;
  }

  /** Two inputs whose predecessors have no calls give out the same ids. */
  lemma {:induction false} GapCollides(inputs: seq<Input>)
    requires !GapFree(Shape(inputs))
    requires forall k | 0 <= k < |inputs| && HasCalls(inputs[k]) :: Calls(inputs[k]) == [ApiRecord(1, 0, 0, 0)]
    ensures !DistinctIds(ApiTable(inputs, |inputs|))
  {
    var first, again := RepeatedStart(inputs);
    FirstIdIsOne(inputs, first);
    FirstIdIsOne(inputs, again);
    TableGrows(inputs, first, again);
    assert ApiPos(inputs, first, 0) < ApiPos(inputs, again, 0);
  }

  lemma {:induction false} FirstIdIsOne(inputs: seq<Input>, k: nat)
    requires k < |inputs| && Calls(inputs[k]) == [ApiRecord(1, 0, 0, 0)] && Offset(inputs, k) == 0
    ensures ApiPos(inputs, k, 0) < |ApiTable(inputs, |inputs|)|
    ensures ApiTable(inputs, |inputs|)[ApiPos(inputs, k, 0)].id == 1
  {
    ApiAt(inputs, |inputs|, k, 0);
  }

  lemma {:induction false} RepeatedStart(inputs: seq<Input>) returns (first: nat, again: nat)
    requires !GapFree(Shape(inputs))
    ensures first < again < |inputs| && HasCalls(inputs[first]) && HasCalls(inputs[again])
    ensures Offset(inputs, first) == Offset(inputs, again) == 0
  {
    var shape := Shape(inputs);
    var a, b, c :| 0 <= a < b < c < |shape| && shape[a] && shape[c] && !shape[b];
    first := FirstCall(inputs, 0, a);
    again := FirstCall(inputs, b + 1, c);
  }

  /** The first input with calls from k on, given that the one before k has none: its offset is 0. */
  lemma {:induction false} FirstCall(inputs: seq<Input>, k: nat, last: nat) returns (m: nat)
    requires k <= last < |inputs| && HasCalls(inputs[last])
    requires k > 0 ==> !HasCalls(inputs[k - 1])
    ensures k <= m <= last && HasCalls(inputs[m]) && Offset(inputs, m) == 0
    decreases last - k
  {
    if HasCalls(inputs[k]) {
      m := k;
    } else {
      m := FirstCall(inputs, k + 1, last);
    }
  }

  // ---------- the join ----------

  /** Every asynchronous record refers to a call of its own input. */
  ghost predicate RefersToOwnCalls(itr: Input) {
    forall j | 0 <= j < |Asyncs(itr)| :: exists i :: 0 <= i < |Calls(itr)| && Calls(itr)[i].corr == Asyncs(itr)[j].corr
  }

  ghost predicate AllRefer(inputs: seq<Input>) {
    forall k | 0 <= k < |inputs| :: RefersToOwnCalls(inputs[k])
  }

  /** rocpd_api JOIN rocpd_api_ops JOIN rocpd_op relates these two rows. */
  ghost predicate Joined(call: ApiRow, links: seq<(nat, nat)>, op: OpRow) {
    exists n | 0 <= n < |links| :: links[n] == (call.id, op.id)
  }

  /** The merged join is the disjoint union of the inputs' own joins: a call and an operation are
      related in the database exactly when they come from the same input and refer to each other
      there. Rows of different inputs are never related. */
  lemma {:induction false} JoinIsDisjointUnion(inputs: seq<Input>, k: nat, i: nat, k': nat, i': nat)
    requires AllOwnIds(inputs) && AllRefer(inputs) && GapFree(Shape(inputs))
    requires IsCall(inputs, k, i) && IsAsync(inputs, k', i')
    ensures ApiPos(inputs, k, i) < |ApiTable(inputs, |inputs|)| && OpPos(inputs, k', i') < |OpTable(inputs, |inputs|)|
    ensures Joined(ApiTable(inputs, |inputs|)[ApiPos(inputs, k, i)],
                   LinkTable(OpTable(inputs, |inputs|)),
                   OpTable(inputs, |inputs|)[OpPos(inputs, k', i')])
       <==> k == k' && Calls(inputs[k])[i].corr == Asyncs(inputs[k'])[i'].corr
  {
    var n := |inputs|;
    ApiAt(inputs, n, k, i);
    OpAt(inputs, n, k', i');
    OpsNumbered(inputs, n);
    var call := ApiTable(inputs, n)[ApiPos(inputs, k, i)];
    var ops := OpTable(inputs, n);
    var q := OpPos(inputs, k', i');
    assert LinkTable(ops)[q] == (ops[q].sequenceId, q);
    assert Joined(call, LinkTable(ops), ops[q]) <==> call.id == ops[q].sequenceId;
    var own: nat :| own < |Calls(inputs[k'])| && Calls(inputs[k'])[own].corr == Asyncs(inputs[k'])[i'].corr;
    if k < k' || (k == k' && i < own) {
      IdsDistinct(inputs, k, i, k', own);
    } else if k' < k || own < i {
      IdsDistinct(inputs, k', own, k, i);
    }
  }

  /** Operation ids are 0, 1, ... in the order of insertion. */
  lemma {:induction false} OpsNumbered(inputs: seq<Input>, n: nat)
    requires n <= |inputs|
    ensures Numbered(OpTable(inputs, n))
  {
    if n > 0 {
      OpsNumbered(inputs, n - 1);
    }
  }

  /** Every operation joins with exactly one call. */
  lemma {:induction false} OneCallPerOp(inputs: seq<Input>, q: nat)
    requires AllOwnIds(inputs) && AllRefer(inputs) && GapFree(Shape(inputs))
    requires q < |OpTable(inputs, |inputs|)|
    ensures var api, ops := ApiTable(inputs, |inputs|), OpTable(inputs, |inputs|);
            exists p :: 0 <= p < |api| && Joined(api[p], LinkTable(ops), ops[q])
                     && forall p' | 0 <= p' < |api| && Joined(api[p'], LinkTable(ops), ops[q]) :: p' == p
  {
    var n := |inputs|;
    var api, ops := ApiTable(inputs, n), OpTable(inputs, n);
    var k, j := OpOrigin(inputs, n, q);
    assert RefersToOwnCalls(inputs[k]);
    var i: nat :| i < |Calls(inputs[k])| && Calls(inputs[k])[i].corr == Asyncs(inputs[k])[j].corr;
    var p := ApiPos(inputs, k, i);
    JoinIsDisjointUnion(inputs, k, i, k, j);
    forall p' | 0 <= p' < |api| && Joined(api[p'], LinkTable(ops), ops[q]) ensures p' == p {
      var k', i' := ApiOrigin(inputs, n, p');
      JoinIsDisjointUnion(inputs, k', i', k, j);
    }
    assert Joined(api[p], LinkTable(ops), ops[q]);
  }

  // ---------- the kernel view ----------

  predicate IsDispatch(inputs: seq<Input>, k: nat, i: nat) {
    k < |inputs| && i < |inputs[k].dispatches|
  }

  /** Row i of input k in the kernel table. */
  function KernelPos(inputs: seq<Input>, k: nat, i: nat): nat
    requires k < |inputs|
  {
    |KernelTable(inputs, k)| + i
  }

  lemma {:induction false} KernelAt(inputs: seq<Input>, n: nat, k: nat, i: nat)
    requires n <= |inputs| && IsDispatch(inputs, k, i) && k < n
    ensures KernelPos(inputs, k, i) < |KernelTable(inputs, n)|
    ensures KernelTable(inputs, n)[KernelPos(inputs, k, i)] == inputs[k].dispatches[i].corr + Offset(inputs, k)
  {
    var before, added := KernelTable(inputs, n - 1), Renumbered(inputs[n - 1].dispatches, Offset(inputs, n - 1));
    assert KernelTable(inputs, n) == before + added;
    if k < n - 1 {
      KernelAt(inputs, n - 1, k, i);
      assert (before + added)[KernelPos(inputs, k, i)] == before[KernelPos(inputs, k, i)];
    } else {
      assert (before + added)[|before| + i] == added[i];
    }
  }

  lemma {:induction false} KernelOrigin(inputs: seq<Input>, n: nat, p: nat) returns (k: nat, i: nat)
    requires n <= |inputs| && p < |KernelTable(inputs, n)|
    ensures k < n && IsDispatch(inputs, k, i) && KernelPos(inputs, k, i) == p
  {
    if p >= |KernelTable(inputs, n - 1)| {
      k, i := n - 1, p - |KernelTable(inputs, n - 1)|;
    } else {
      k, i := KernelOrigin(inputs, n - 1, p);
    }
  }

  /** The view kernel joins the links with the operations and, by their call, with the kernel rows:
      it lists operation q with kernel row p. */
  ghost predicate Listed(inputs: seq<Input>, q: nat, p: nat)
    requires q < |OpTable(inputs, |inputs|)| && p < |KernelTable(inputs, |inputs|)|
  {
    Linked(OpTable(inputs, |inputs|), q, KernelTable(inputs, |inputs|)[p])
  }

  /** A link joins the operation with this call. */
  ghost predicate Linked(ops: seq<OpRow>, q: nat, call: nat)
    requires q < |ops|
  {
    exists n | 0 <= n < |ops| :: LinkTable(ops)[n] == (call, ops[q].id)
  }

  lemma {:induction false} LinkedExactly(ops: seq<OpRow>, q: nat, call: nat)
    requires Numbered(ops) && q < |ops|
    ensures Linked(ops, q, call) <==> ops[q].sequenceId == call
  {
    assert LinkTable(ops)[q] == (ops[q].sequenceId, ops[q].id);
  }

  /** An operation is listed with a dispatch's row exactly when both come from the same input and have
      the same call there. */
  lemma {:induction false} ListedExactly(inputs: seq<Input>, k: nat, j: nat, k': nat, i: nat)
    requires AllOwnIds(inputs) && AllRefer(inputs) && GapFree(Shape(inputs))
    requires IsAsync(inputs, k, j) && IsDispatch(inputs, k', i)
    ensures OpPos(inputs, k, j) < |OpTable(inputs, |inputs|)|
    ensures KernelPos(inputs, k', i) < |KernelTable(inputs, |inputs|)|
    ensures Listed(inputs, OpPos(inputs, k, j), KernelPos(inputs, k', i)) <==>
            k == k' && Asyncs(inputs[k])[j].corr == inputs[k'].dispatches[i].corr
  {
    KernelAt(inputs, |inputs|, k', i);
    OpAt(inputs, |inputs|, k, j);
    OpsNumbered(inputs, |inputs|);
    LinkedExactly(OpTable(inputs, |inputs|), OpPos(inputs, k, j), inputs[k'].dispatches[i].corr + Offset(inputs, k'));
    assert Asyncs(inputs[k'])[i] == inputs[k'].dispatches[i];
    SameCall(inputs, k, j, k', i);
  }

  /** Renumbered calls of two operations are equal exactly when they are of one input and equal there. */
  lemma {:induction false} SameCall(inputs: seq<Input>, k: nat, j: nat, k': nat, i: nat)
    requires AllOwnIds(inputs) && AllRefer(inputs) && GapFree(Shape(inputs))
    requires IsAsync(inputs, k, j) && IsAsync(inputs, k', i)
    ensures Asyncs(inputs[k])[j].corr + Offset(inputs, k) == Asyncs(inputs[k'])[i].corr + Offset(inputs, k') <==>
            k == k' && Asyncs(inputs[k])[j].corr == Asyncs(inputs[k'])[i].corr
  {
    var a := OwnCall(inputs, k, j);
    var b := OwnCall(inputs, k', i);
    if k < k' {
      IdsDistinct(inputs, k, a, k', b);
    } else if k' < k {
      IdsDistinct(inputs, k', b, k, a);
    }
  }

  lemma {:induction false} OwnCall(inputs: seq<Input>, k: nat, j: nat) returns (a: nat)
    requires AllRefer(inputs) && IsAsync(inputs, k, j)
    ensures IsCall(inputs, k, a) && Calls(inputs[k])[a].corr == Asyncs(inputs[k])[j].corr
  {
    assert RefersToOwnCalls(inputs[k]);
    a :| 0 <= a < |Calls(inputs[k])| && Calls(inputs[k])[a].corr == Asyncs(inputs[k])[j].corr;
  }

  /** No other operation of the input has the call of a dispatch. */
  ghost predicate DispatchesAlone(itr: Input) {
    forall i, j | 0 <= i < |itr.dispatches| && 0 <= j < |Asyncs(itr)| && i != j ::
      Asyncs(itr)[j].corr != itr.dispatches[i].corr
  }

  /** Row q of the op table and row p of the kernel table are those of one dispatch. */
  ghost predicate SameDispatch(inputs: seq<Input>, q: nat, p: nat) {
    exists k: nat, i: nat :: IsDispatch(inputs, k, i) && q == OpPos(inputs, k, i) && p == KernelPos(inputs, k, i)
  }

  ghost predicate ViewIsDispatches(inputs: seq<Input>) {
    forall q: nat, p: nat | q < |OpTable(inputs, |inputs|)| && p < |KernelTable(inputs, |inputs|)| ::
      Listed(inputs, q, p) <==> SameDispatch(inputs, q, p)
  }

  /** The view lists each dispatch once, with its own row, and nothing else exactly when no dispatch
      shares its call with another dispatch or with a copy. */
  lemma {:induction false} KernelViewExact(inputs: seq<Input>)
    requires AllOwnIds(inputs) && AllRefer(inputs) && GapFree(Shape(inputs))
    ensures ViewIsDispatches(inputs) <==> forall k | 0 <= k < |inputs| :: DispatchesAlone(inputs[k])
  {
    var n := |inputs|;
    if forall k | 0 <= k < n :: DispatchesAlone(inputs[k]) {
      forall q: nat, p: nat | q < |OpTable(inputs, n)| && p < |KernelTable(inputs, n)|
        ensures Listed(inputs, q, p) <==> SameDispatch(inputs, q, p)
      {
        AloneListed(inputs, q, p);
      }
    } else {
      var k: nat :| k < n && !DispatchesAlone(inputs[k]);
      var i: nat, j: nat :| i < |inputs[k].dispatches| && j < |Asyncs(inputs[k])| && i != j
                            && Asyncs(inputs[k])[j].corr == inputs[k].dispatches[i].corr;
      SharedListed(inputs, k, i, j);
    }
  }

  lemma {:induction false} AloneListed(inputs: seq<Input>, q: nat, p: nat)
    requires AllOwnIds(inputs) && AllRefer(inputs) && GapFree(Shape(inputs))
    requires forall k | 0 <= k < |inputs| :: DispatchesAlone(inputs[k])
    requires q < |OpTable(inputs, |inputs|)| && p < |KernelTable(inputs, |inputs|)|
    ensures Listed(inputs, q, p) <==> SameDispatch(inputs, q, p)
  {
    var k, j := OpOrigin(inputs, |inputs|, q);
    var k', i := KernelOrigin(inputs, |inputs|, p);
    ListedExactly(inputs, k, j, k', i);
    if Listed(inputs, q, p) {
      assert DispatchesAlone(inputs[k]);
      assert i == j;
    }
    if SameDispatch(inputs, q, p) {
      var m: nat, h: nat :| IsDispatch(inputs, m, h) && q == OpPos(inputs, m, h) && p == KernelPos(inputs, m, h);
      assert IsAsync(inputs, m, h) && Asyncs(inputs[m])[h] == inputs[m].dispatches[h];
      ListedExactly(inputs, m, h, m, h);
    }
  }

  lemma {:induction false} SharedListed(inputs: seq<Input>, k: nat, i: nat, j: nat)
    requires AllOwnIds(inputs) && AllRefer(inputs) && GapFree(Shape(inputs))
    requires IsDispatch(inputs, k, i) && IsAsync(inputs, k, j) && i != j
    requires Asyncs(inputs[k])[j].corr == inputs[k].dispatches[i].corr
    ensures !ViewIsDispatches(inputs)
  {
    var q, p := OpPos(inputs, k, j), KernelPos(inputs, k, i);
    ListedExactly(inputs, k, j, k, i);
    if SameDispatch(inputs, q, p) {
      var m: nat, h: nat :| IsDispatch(inputs, m, h) && q == OpPos(inputs, m, h) && p == KernelPos(inputs, m, h);
      KernelPosUnique(inputs, k, i, m, h);
      assert false;
    }
    assert Listed(inputs, q, p);
  }

  lemma {:induction false} KernelPosUnique(inputs: seq<Input>, k: nat, i: nat, m: nat, h: nat)
    requires IsDispatch(inputs, k, i) && IsDispatch(inputs, m, h)
    requires KernelPos(inputs, k, i) == KernelPos(inputs, m, h)
    ensures k == m && i == h
  {
    if k < m {
      KernelsGrow(inputs, k, m);
    } else if m < k {
      KernelsGrow(inputs, m, k);
    }
  }

  lemma {:induction false} KernelsGrow(inputs: seq<Input>, k: nat, k': nat)
    requires k < k' <= |inputs|
    ensures |KernelTable(inputs, k)| + |inputs[k].dispatches| <= |KernelTable(inputs, k')|
  {
    if k + 1 < k' {
      KernelsGrow(inputs, k, k' - 1);
    }
  }

  // ---------- normalisation ----------

  lemma {:induction false} ConcatShift(lists: seq<seq<ApiRecord>>, t: int)
    ensures Concat(ShiftLists(lists, t)) == ShiftCalls(Concat(lists), t)
  {
    if lists != [] {
      var front := lists[..|lists| - 1];
      ConcatShift(front, t);
      assert ShiftLists(lists, t)[..|lists| - 1] == ShiftLists(front, t);
      assert ShiftCalls(Concat(front), t) + ShiftCalls(lists[|lists| - 1], t) == ShiftCalls(Concat(lists), t);
    }
  }

  /** Normalisation moves all times of an input by its start time and changes nothing else: every
      id, every thread and every reference between records stays. */
  lemma {:induction false} NormalizeKeeps(itr: Input)
    ensures Normalized(itr).pid == itr.pid && Normalized(itr).initTime == itr.initTime
    ensures |Calls(Normalized(itr))| == |Calls(itr)|
    ensures forall i | 0 <= i < |Calls(itr)| ::
              var now, then0 := Calls(Normalized(itr))[i], Calls(itr)[i];
              && now.corr == then0.corr && now.thread == then0.thread
              && now.start == then0.start - itr.initTime && now.end == then0.end - itr.initTime
    ensures |Normalized(itr).dispatches| == |itr.dispatches| && |Asyncs(Normalized(itr))| == |Asyncs(itr)|
    ensures forall j | 0 <= j < |Asyncs(itr)| ::
              var now, then0 := Asyncs(Normalized(itr))[j], Asyncs(itr)[j];
              && now.corr == then0.corr
              && now.start == then0.start - itr.initTime && now.end == then0.end - itr.initTime
    ensures OwnIds(Normalized(itr)) <==> OwnIds(itr)
    ensures RefersToOwnCalls(Normalized(itr)) <==> RefersToOwnCalls(itr)
  {
    ConcatShift(itr.apis, itr.initTime);
    var n := Normalized(itr);
    assert Asyncs(n) == ShiftAsyncs(Asyncs(itr), itr.initTime);
    assert forall i | 0 <= i < |Calls(itr)| :: Calls(n)[i].corr == Calls(itr)[i].corr;
    assert forall j | 0 <= j < |Asyncs(itr)| :: Asyncs(n)[j].corr == Asyncs(itr)[j].corr;
  }

  // ---------- the rows of a merge, column by column ----------

  /** What normalisation takes off the times of an input. */
  function Shift(itr: Input, normalizeTimestamps: bool): int {
    if normalizeTimestamps then itr.initTime else 0
  }

  /** The call table has a row for call i of input k, with the call's columns. */
  lemma {:induction false} MergedCall(inputs: seq<Input>, normalizeTimestamps: bool, k: nat, i: nat)
    requires IsCall(inputs, k, i)
    ensures
      var ins := Prepared(inputs, normalizeTimestamps);
      var p, call, t := ApiPos(ins, k, i), Calls(inputs[k])[i], Shift(inputs[k], normalizeTimestamps);
      && p < |ApiTable(ins, |ins|)|
      && var row := ApiTable(ins, |ins|)[p];
         && row.id == call.corr + Offset(ins, k)
         && row.pid == inputs[k].pid && row.tid == call.thread
         && row.start == call.start - t && row.end == call.end - t
  {
    var ins := Prepared(inputs, normalizeTimestamps);
    NormalizeKeeps(inputs[k]);
    ApiAt(ins, |ins|, k, i);
  }

  /** The operation table has, for each input, its dispatches and then its copies; a dispatch also has
      a kernel row, a copy a copy row, all with the call's new id. */
  lemma {:induction false} MergedDispatch(inputs: seq<Input>, normalizeTimestamps: bool, k: nat, i: nat)
    requires IsDispatch(inputs, k, i)
    ensures
      var ins := Prepared(inputs, normalizeTimestamps);
      var q, r, t := |OpTable(ins, k)| + i, inputs[k].dispatches[i], Shift(inputs[k], normalizeTimestamps);
      && q < |OpTable(ins, |ins|)| && KernelPos(ins, k, i) < |KernelTable(ins, |ins|)|
      && KernelTable(ins, |ins|)[KernelPos(ins, k, i)] == r.corr + Offset(ins, k)
      && var row := OpTable(ins, |ins|)[q];
         && row.id == q && row.sequenceId == r.corr + Offset(ins, k)
         && row.start == r.start - t && row.end == r.end - t
  {
    var ins := Prepared(inputs, normalizeTimestamps);
    NormalizeKeeps(inputs[k]);
    assert Asyncs(inputs[k])[i] == inputs[k].dispatches[i];
    assert Asyncs(ins[k])[i] == ins[k].dispatches[i];
    OpAt(ins, |ins|, k, i);
    KernelAt(ins, |ins|, k, i);
  }

  lemma {:induction false} MergedCopy(inputs: seq<Input>, normalizeTimestamps: bool, k: nat, i: nat)
    requires k < |inputs| && i < |inputs[k].copies|
    ensures
      var ins := Prepared(inputs, normalizeTimestamps);
      var q, r := |OpTable(ins, k)| + |inputs[k].dispatches| + i, inputs[k].copies[i];
      var t := Shift(inputs[k], normalizeTimestamps);
      && q < |OpTable(ins, |ins|)| && |CopyTable(ins, k)| + i < |CopyTable(ins, |ins|)|
      && CopyTable(ins, |ins|)[|CopyTable(ins, k)| + i] == r.corr + Offset(ins, k)
      && var row := OpTable(ins, |ins|)[q];
         && row.id == q && row.sequenceId == r.corr + Offset(ins, k)
         && row.start == r.start - t && row.end == r.end - t
  {
    var ins := Prepared(inputs, normalizeTimestamps);
    var j := |inputs[k].dispatches| + i;
    NormalizeKeeps(inputs[k]);
    assert Asyncs(inputs[k])[j] == inputs[k].copies[i];
    assert Asyncs(ins[k])[j] == ins[k].copies[i];
    OpAt(ins, |ins|, k, j);
    CopyAt(ins, |ins|, k, i);
  }

  lemma {:induction false} CopyAt(inputs: seq<Input>, n: nat, k: nat, i: nat)
    requires n <= |inputs| && k < n && i < |inputs[k].copies|
    ensures |CopyTable(inputs, k)| + i < |CopyTable(inputs, n)|
    ensures CopyTable(inputs, n)[|CopyTable(inputs, k)| + i] == inputs[k].copies[i].corr + Offset(inputs, k)
  {
    var before, added := CopyTable(inputs, n - 1), Renumbered(inputs[n - 1].copies, Offset(inputs, n - 1));
    assert CopyTable(inputs, n) == before + added;
    if k < n - 1 {
      CopyAt(inputs, n - 1, k, i);
      assert (before + added)[|CopyTable(inputs, k)| + i] == before[|CopyTable(inputs, k)| + i];
    } else {
      assert (before + added)[|before| + i] == added[i];
    }
  }

  /** The offset of the first input is 0; that of any other is the largest id the input before it was
      given, 0 if it was given none. */
  lemma {:induction false} OffsetIsLargest(inputs: seq<Input>, k: nat)
    requires k < |inputs|
    ensures Offset(inputs, 0) == 0
    ensures Calls(inputs[k]) == [] ==> Offset(inputs, k + 1) == 0
    ensures forall i | 0 <= i < |Calls(inputs[k])| ::
              Calls(inputs[k])[i].corr + Offset(inputs, k) <= Offset(inputs, k + 1)
    ensures Calls(inputs[k]) != [] ==>
              exists i :: 0 <= i < |Calls(inputs[k])|
                          && Calls(inputs[k])[i].corr + Offset(inputs, k) == Offset(inputs, k + 1)
  {
    var rows := RowsOf(inputs, k);
    MaxIdBounds(rows);
    assert forall i | 0 <= i < |rows| :: rows[i].id == Calls(inputs[k])[i].corr + Offset(inputs, k);
  }
}
