/** Table-driven dispatch of local optimization strategies (src/strategy.c). */
module Strategy {
  import Opcodes

  /** OP_ANY: a match value one past OP_END, matching every opcode. */
  const OpAny: nat := Opcodes.EndCode + 1

  /** The function a strategy row runs. strategy_null always fails; NoFn is
      the NULL of the terminating row; Rule stands for any other strategy
      function, whose success depends on the optimizer's state. */
  datatype StrategyFn = StrategyNull | NoFn | Rule(id: nat)

  /** One row of a strategy table: the opcode it applies to (or OP_ANY, or
      OP_END to end the table), its function and its optimization level. */
  datatype StrategyRow = StrategyRow(target: nat, fn: StrategyFn, level: int)

  /** The strategy definition table: the null strategy for every opcode at
      level 0, then the terminator. */
  const StrategyTable: seq<StrategyRow> := [
    StrategyRow(OpAny, StrategyNull, 0),
    StrategyRow(Opcodes.EndCode, NoFn, 0)
  ]

  /** The row applies to opcode op at optimization level maxlevel. */
  predicate Eligible(row: StrategyRow, op: nat, maxlevel: int)
  {
    (row.target == op || row.target == OpAny) && row.level <= maxlevel
  }

  /** Whether running row i succeeds. `outcome[i]` is what the strategy
      function reports in the optimizer's state at that point; the null
      strategy always reports failure. */
  predicate Succeeds(table: seq<StrategyRow>, outcome: seq<bool>, i: nat)
  {
    i < |table| && i < |outcome| && table[i].fn.Rule? && outcome[i]
  }

  /** No row from i through k is the terminator. */
  predicate BeforeEnd(table: seq<StrategyRow>, i: nat, k: nat)
    requires k < |table|
  {
    forall j :: i <= j <= k ==> table[j].target != Opcodes.EndCode
  }

  /** The rows strategy_apply runs, in order, scanning from row i. */
  function Dispatch(table: seq<StrategyRow>, op: nat, maxlevel: int, outcome: seq<bool>, i: nat): seq<nat>
    requires i <= |table| && |outcome| == |table|
    decreases |table| - i
  {
    if i == |table| || table[i].target == Opcodes.EndCode then []
    else if Eligible(table[i], op, maxlevel) then
      if Succeeds(table, outcome, i) then [i] else [i] + Dispatch(table, op, maxlevel, outcome, i + 1)
    else Dispatch(table, op, maxlevel, outcome, i + 1)
  }

  /** strategy_apply: runs, in table order, every row before the terminator
      that applies to op at level maxlevel, and stops after the first one that
      succeeds. Returns the indices of the rows it ran. */
  method Apply(table: seq<StrategyRow>, op: nat, maxlevel: int, outcome: seq<bool>) returns (ran: seq<nat>)
    requires |outcome| == |table|
    requires exists e :: 0 <= e < |table| && table[e].target == Opcodes.EndCode
    ensures ran == Dispatch(table, op, maxlevel, outcome, 0)
  {
    ghost var e :| 0 <= e < |table| && table[e].target == Opcodes.EndCode;
    ran := [];
    var i := 0;
    while table[i].target != Opcodes.EndCode
      invariant 0 <= i <= e
      invariant ran + Dispatch(table, op, maxlevel, outcome, i) == Dispatch(table, op, maxlevel, outcome, 0)
      decreases e - i
    {
      if (table[i].target == op || table[i].target == OpAny) && table[i].level <= maxlevel {
        ran := ran + [i];
        if table[i].fn.Rule? && outcome[i] {
          break;
        }
      }
      assert ran + Dispatch(table, op, maxlevel, outcome, i + 1) == Dispatch(table, op, maxlevel, outcome, 0);
      i := i + 1;
    }
  }

  /** strategy_null: never succeeds. */
  function StrategyNullResult(): (ok: bool)
    ensures !ok
  {
    false
  }

  /** Only rows that apply to the opcode at the level, lying before the
      terminator, are run. */
  lemma {:induction false} DispatchRunsOnlyEligible(table: seq<StrategyRow>, op: nat, maxlevel: int, outcome: seq<bool>, i: nat)
    requires i <= |table| && |outcome| == |table|
    ensures forall n :: 0 <= n < |Dispatch(table, op, maxlevel, outcome, i)| ==>
      var k := Dispatch(table, op, maxlevel, outcome, i)[n];
      i <= k < |table| && Eligible(table[k], op, maxlevel) && BeforeEnd(table, i, k)
    decreases |table| - i
  {
    if i < |table| && table[i].target != Opcodes.EndCode {
      var d := Dispatch(table, op, maxlevel, outcome, i);
      var d' := Dispatch(table, op, maxlevel, outcome, i + 1);
      DispatchRunsOnlyEligible(table, op, maxlevel, outcome, i + 1);
      if Eligible(table[i], op, maxlevel) && !Succeeds(table, outcome, i) {
        assert d == [i] + d';
        forall n | 0 < n < |d|
          ensures i <= d[n] < |table| && Eligible(table[d[n]], op, maxlevel) && BeforeEnd(table, i, d[n])
        {
          assert d[n] == d'[n - 1];
          assert BeforeEnd(table, i + 1, d[n]);
        }
      } else if !Eligible(table[i], op, maxlevel) {
        assert d == d';
        forall n | 0 <= n < |d|
          ensures BeforeEnd(table, i, d[n])
        {
          assert BeforeEnd(table, i + 1, d[n]);
        }
      }
    }
  }

  /** Rows are run in table order, each at most once, and every row run
      except the last failed. */
  lemma {:induction false} DispatchInOrderStopsAtSuccess(table: seq<StrategyRow>, op: nat, maxlevel: int, outcome: seq<bool>, i: nat)
    requires i <= |table| && |outcome| == |table|
    ensures forall n, m :: 0 <= n < m < |Dispatch(table, op, maxlevel, outcome, i)| ==>
      Dispatch(table, op, maxlevel, outcome, i)[n] < Dispatch(table, op, maxlevel, outcome, i)[m]
    ensures forall n :: 0 <= n < |Dispatch(table, op, maxlevel, outcome, i)| - 1 ==>
      !Succeeds(table, outcome, Dispatch(table, op, maxlevel, outcome, i)[n])
    decreases |table| - i
  {
    if i < |table| && table[i].target != Opcodes.EndCode {
      var d := Dispatch(table, op, maxlevel, outcome, i);
      var d' := Dispatch(table, op, maxlevel, outcome, i + 1);
      DispatchInOrderStopsAtSuccess(table, op, maxlevel, outcome, i + 1);
      DispatchRunsOnlyEligible(table, op, maxlevel, outcome, i + 1);
      if Eligible(table[i], op, maxlevel) && !Succeeds(table, outcome, i) {
        assert d == [i] + d';
        forall n, m | 0 <= n < m < |d|
          ensures d[n] < d[m]
        {
          assert d[m] == d'[m - 1];
          if n > 0 { assert d[n] == d'[n - 1]; }
        }
        forall n | 0 < n < |d| - 1
          ensures !Succeeds(table, outcome, d[n])
        {
          assert d[n] == d'[n - 1];
        }
      } else if !Eligible(table[i], op, maxlevel) {
        assert d == d';
      }
    }
  }

  /** No applicable row is skipped: every row before the terminator that
      applies to the opcode at the level is run, unless a row run before it
      succeeded. */
  lemma {:induction false} DispatchRunsAllUntilSuccess(table: seq<StrategyRow>, op: nat, maxlevel: int, outcome: seq<bool>, i: nat, k: nat)
    requires i <= k < |table| && |outcome| == |table|
    requires BeforeEnd(table, i, k) && Eligible(table[k], op, maxlevel)
    requires forall n :: 0 <= n < |Dispatch(table, op, maxlevel, outcome, i)| && Dispatch(table, op, maxlevel, outcome, i)[n] < k ==>
      !Succeeds(table, outcome, Dispatch(table, op, maxlevel, outcome, i)[n])
    ensures k in Dispatch(table, op, maxlevel, outcome, i)
    decreases k - i
  {
    if i < k {
      var d := Dispatch(table, op, maxlevel, outcome, i);
      var d' := Dispatch(table, op, maxlevel, outcome, i + 1);
      if Eligible(table[i], op, maxlevel) {
        assert !Succeeds(table, outcome, i) by { assert d[0] == i; }
        assert d == [i] + d';
        forall n | 0 <= n < |d'| && d'[n] < k
          ensures !Succeeds(table, outcome, d'[n])
        {
          assert d[n + 1] == d'[n];
        }
      }
      DispatchRunsAllUntilSuccess(table, op, maxlevel, outcome, i + 1, k);
    }
  }

  /** With the definition table, strategy_apply runs the null strategy once
      for every opcode when the level admits level 0, and nothing otherwise. */
  lemma DefinitionTableDispatch(op: nat, maxlevel: int, outcome: seq<bool>)
    requires |outcome| == |StrategyTable|
    ensures Dispatch(StrategyTable, op, maxlevel, outcome, 0) == if maxlevel >= 0 then [0] else []
  {
  }
}
