/** The optimizer's database of opcodes and their properties (src/opcodes.c). */
module Opcodes {
  import opened Bytecode
  import opened RegInfo

  /** The OPCODE_* property bits. Conditional is used by the table for the
      conditional branches although the header does not define it. */
  datatype Flag =
    | OverwritesA | OverwritesAP1 | OverwritesB
    | UsesA | UsesB | UsesC | UsesRangeBC
    | EndsBlock | Branch | NewBlockAfter | BranchTable
    | Terminating | SideEffects | Unsupported
    | Conditional

  /** The process function attached to an opcode, if any. */
  datatype ProcessFn = NoProcess | LctProcess | LglProcess

  /** One row of the opcode table: the opcode number, its label, its
      property bits and its process function. */
  datatype OpcodeInfo = OpcodeInfo(code: nat, name: string, flags: set<Flag>, process: ProcessFn)

  /** Opcode numbers. Morpho's own headers fix them and are not part of this
      model; the model numbers the opcodes in the order the definition table
      lists them, with OP_END last, which is the arrangement that the
      initialization check expects. */
  function OpNumber(op: Op): nat
  {
    match op
    case Nop => 0 case Mov => 1
    case Add => 2 case Sub => 3 case Mul => 4 case Div => 5 case Pow => 6
    case Not => 7 case Eq => 8 case Neq => 9 case Lt => 10 case Le => 11
    case PushErr => 12 case PopErr => 13 case B => 14 case Bif => 15 case Biff => 16
    case Call => 17 case Invoke => 18 case Return => 19 case CloseUp => 20
    case Lct => 21 case Lgl => 22 case Sgl => 23 case Lpr => 24 case Spr => 25
    case Lup => 26 case Sup => 27 case Lix => 28 case Six => 29
    case Closure => 30 case Print => 31 case Break => 32 case Cat => 33 case End => 34
  }

  /** OP_END, the opcode of the row that terminates the table. */
  const EndCode: nat := OpNumber(End)

  function Row(op: Op, name: string, flags: set<Flag>, process: ProcessFn): OpcodeInfo
  {
    OpcodeInfo(OpNumber(op), name, flags, process)
  }

  /** The row of the opcode definition table that describes op. */
  function InfoOf(op: Op): (row: OpcodeInfo)
    ensures row.code == OpNumber(op)
  {
    match op
    case Nop => Row(Nop, "nop", {}, NoProcess)
    case Mov => Row(Mov, "mov", {OverwritesA, UsesB}, NoProcess)
    case Add => Row(Add, "add", {OverwritesA, UsesB, UsesC}, NoProcess)
    case Sub => Row(Sub, "sub", {OverwritesA, UsesB, UsesC}, NoProcess)
    case Mul => Row(Mul, "mul", {OverwritesA, UsesB, UsesC}, NoProcess)
    case Div => Row(Div, "div", {OverwritesA, UsesB, UsesC}, NoProcess)
    case Pow => Row(Pow, "pow", {OverwritesA, UsesB, UsesC}, NoProcess)
    case Not => Row(Not, "not", {OverwritesA, UsesB}, NoProcess)
    case Eq => Row(Eq, "eq", {OverwritesA, UsesB, UsesC}, NoProcess)
    case Neq => Row(Neq, "neq", {OverwritesA, UsesB, UsesC}, NoProcess)
    case Lt => Row(Lt, "lt", {OverwritesA, UsesB, UsesC}, NoProcess)
    case Le => Row(Le, "le", {OverwritesA, UsesB, UsesC}, NoProcess)
    case PushErr => Row(PushErr, "pusherr", {}, NoProcess)
    case PopErr => Row(PopErr, "poperr", {EndsBlock, Branch}, NoProcess)
    case B => Row(B, "b", {EndsBlock, Branch}, NoProcess)
    case Bif => Row(Bif, "bif", {EndsBlock, Branch, Conditional, UsesA}, NoProcess)
    case Biff => Row(Biff, "biff", {EndsBlock, Branch, Conditional, UsesA}, NoProcess)
    case Call => Row(Call, "call", {UsesA}, NoProcess)
    case Invoke => Row(Invoke, "invoke", {UsesA, UsesB}, NoProcess)
    case Return => Row(Return, "return", {UsesB, EndsBlock, Terminating}, NoProcess)
    case CloseUp => Row(CloseUp, "closeup", {Unsupported}, NoProcess)
    case Lct => Row(Lct, "lct", {OverwritesA}, LctProcess)
    case Lgl => Row(Lgl, "lgl", {OverwritesA}, LglProcess)
    case Sgl => Row(Sgl, "sgl", {UsesA}, NoProcess)
    case Lpr => Row(Lpr, "lpr", {OverwritesA, UsesB, UsesC}, NoProcess)
    case Spr => Row(Spr, "spr", {UsesA, UsesB, UsesC}, NoProcess)
    case Lup => Row(Lup, "lup", {OverwritesA}, NoProcess)
    case Sup => Row(Sup, "sup", {UsesB}, NoProcess)
    case Lix => Row(Lix, "lix", {OverwritesB, UsesA, UsesRangeBC}, NoProcess)
    case Six => Row(Six, "six", {UsesA, UsesRangeBC}, NoProcess)
    case Closure => Row(Closure, "closure", {Unsupported}, NoProcess)
    case Print => Row(Print, "print", {UsesA}, NoProcess)
    case Break => Row(Break, "break", {}, NoProcess)
    case Cat => Row(Cat, "cat", {OverwritesA, UsesRangeBC}, NoProcess)
    case End => Row(End, "end", {EndsBlock, Terminating}, NoProcess)
  }

  /** The opcode listed at row i of the definition table (OP_END from row
      34 on). */
  function OpAtRow(i: nat): Op
  {
    match i
    case 0 => Nop case 1 => Mov
    case 2 => Add case 3 => Sub case 4 => Mul case 5 => Div case 6 => Pow
    case 7 => Not case 8 => Eq case 9 => Neq case 10 => Lt case 11 => Le
    case 12 => PushErr case 13 => PopErr case 14 => B case 15 => Bif case 16 => Biff
    case 17 => Call case 18 => Invoke case 19 => Return case 20 => CloseUp
    case 21 => Lct case 22 => Lgl case 23 => Sgl case 24 => Lpr case 25 => Spr
    case 26 => Lup case 27 => Sup case 28 => Lix case 29 => Six
    case 30 => Closure case 31 => Print case 32 => Break case 33 => Cat
    case _ => End
  }

  /** The opcode definition table, rows in source order, OP_END last. */
  const DefinitionTable: seq<OpcodeInfo> := seq(35, i requires 0 <= i < 35 => InfoOf(OpAtRow(i)))

  /** With opcodes numbered in table order, the definition table lists
      opcode i at row i, OP_END last. */
  lemma DefinitionTableIsIndexed()
    ensures |DefinitionTable| == EndCode + 1
    ensures forall i :: 0 <= i <= EndCode ==> OpNumber(OpAtRow(i)) == i
    ensures forall i :: 0 <= i < |DefinitionTable| ==> DefinitionTable[i].code == i
  {
    forall i | 0 <= i <= EndCode
      ensures OpNumber(OpAtRow(i)) == i && DefinitionTable[i].code == i
    {
      assert DefinitionTable[i] == InfoOf(OpAtRow(i));
    }
  }

  function Flags(op: Op): set<Flag> { InfoOf(op).flags }

  /** Rows ordered by opcode number, as qsort with _opcodecmp leaves them. */
  predicate SortedByCode(rows: seq<OpcodeInfo>)
  {
    forall i, j :: 0 <= i < j < |rows| ==> rows[i].code <= rows[j].code
  }

  /** No two rows describe the same opcode number. */
  predicate DistinctCodes(rows: seq<OpcodeInfo>)
  {
    forall i, j :: 0 <= i < j < |rows| ==> rows[i].code != rows[j].code
  }

  /** Inserting one row into rows sorted by opcode number. */
  function InsertByCode(x: OpcodeInfo, rows: seq<OpcodeInfo>): (t: seq<OpcodeInfo>)
    requires SortedByCode(rows)
    ensures SortedByCode(t) && multiset(t) == multiset(rows) + multiset{x} && |t| == |rows| + 1
  {
    if |rows| == 0 then [x]
    else if x.code <= rows[0].code then
      SortedCons(x, rows);
      [x] + rows
    else
      var rest := InsertByCode(x, rows[1..]);
      assert rows == [rows[0]] + rows[1..];
      BoundKept(rows[0].code, x, rows[1..], rest);
      SortedCons(rows[0], rest);
      [rows[0]] + rest
  }

  /** A row no greater than the first of sorted rows can go in front. */
  lemma SortedCons(y: OpcodeInfo, t: seq<OpcodeInfo>)
    requires SortedByCode(t) && (|t| > 0 ==> y.code <= t[0].code)
    ensures SortedByCode([y] + t)
  {
  }

  /** A lower bound on the opcodes of rows and of x bounds every row of a
      permutation of them. */
  lemma BoundKept(lo: nat, x: OpcodeInfo, rows: seq<OpcodeInfo>, t: seq<OpcodeInfo>)
    requires x.code >= lo && (forall j :: 0 <= j < |rows| ==> rows[j].code >= lo)
    requires multiset(t) == multiset(rows) + multiset{x}
    ensures forall j :: 0 <= j < |t| ==> t[j].code >= lo
  {
    forall j | 0 <= j < |t|
      ensures t[j].code >= lo
    {
      assert t[j] in multiset(t);
      if t[j] != x {
        assert t[j] in multiset(rows);
        var k :| 0 <= k < |rows| && rows[k] == t[j];
      }
    }
  }

  /** A sorted permutation of rows; stands for the C library's qsort, whose
      ordering of rows with equal codes the source does not depend on. */
  function SortByCode(rows: seq<OpcodeInfo>): (t: seq<OpcodeInfo>)
    ensures SortedByCode(t) && multiset(t) == multiset(rows) && |t| == |rows|
  {
    if |rows| == 0 then []
    else
      assert rows == rows[..|rows| - 1] + [rows[|rows| - 1]];
      InsertByCode(rows[|rows| - 1], SortByCode(rows[..|rows| - 1]))
  }

  /** The rows of a sorted table whose opcodes are distinct and all below the
      table's length sit at the index of their opcode, which is what
      indexing the table by opcode relies on. */
  lemma {:induction false} SortedCodesAreIndices(rows: seq<OpcodeInfo>)
    requires SortedByCode(rows) && DistinctCodes(rows)
    requires forall i :: 0 <= i < |rows| ==> rows[i].code < |rows|
    ensures forall i :: 0 <= i < |rows| ==> rows[i].code == i
  {
    forall i | 0 <= i < |rows|
      ensures rows[i].code == i
    {
      CodeAtLeastIndex(rows, i);
      CodeAtMostIndex(rows, i);
    }
  }

  lemma {:induction false} CodeAtLeastIndex(rows: seq<OpcodeInfo>, i: nat)
    requires SortedByCode(rows) && DistinctCodes(rows) && i < |rows|
    ensures rows[i].code >= i
  {
    if i > 0 {
      CodeAtLeastIndex(rows, i - 1);
    }
  }

  lemma {:induction false} CodeAtMostIndex(rows: seq<OpcodeInfo>, i: nat)
    requires SortedByCode(rows) && DistinctCodes(rows) && i < |rows|
    requires forall j :: 0 <= j < |rows| ==> rows[j].code < |rows|
    ensures rows[i].code <= i
    decreases |rows| - i
  {
    if i < |rows| - 1 {
      CodeAtMostIndex(rows, i + 1);
    }
  }

  /** lct_processfn and lgl_processfn: the instruction at pc loads constant
      (or global) bx into register a, which the register list records as such.
      The other opcodes have no process function and leave it unchanged. */
  method Process(p: ProcessFn, rlist: RegInfoList, pc: int, a: nat, bx: int)
    requires rlist.Valid()
    modifies rlist.rinfo
    ensures p == LctProcess ==> rlist.rinfo[..] == WriteSpec(old(rlist.rinfo[..]), rlist.nreg, pc, a, Constant, bx)
    ensures p == LglProcess ==> rlist.rinfo[..] == WriteSpec(old(rlist.rinfo[..]), rlist.nreg, pc, a, Global, bx)
    ensures p == NoProcess ==> rlist.rinfo[..] == old(rlist.rinfo[..])
  {
    match p
    case LctProcess => rlist.Write(pc, a, Constant, bx);
    case LglProcess => rlist.Write(pc, a, Global, bx);
    case NoProcess =>
  }

  /** The opcode table and its length, the source's two globals. */
  class OpcodeDatabase {
    var table: array<OpcodeInfo>
    var nopcodes: nat

    constructor (rows: seq<OpcodeInfo>)
      requires |rows| > 0
      ensures fresh(table) && table[..] == rows && nopcodes == 0
    {
      table := new OpcodeInfo[|rows|](i requires 0 <= i < |rows| => rows[i]);
      nopcodes := 0;
    }

    /** opcode_initialize: nopcodes becomes the number of rows before the
        first OP_END row, those rows are sorted by opcode, and the check that
        succeeds exactly when the OP_END row's opcode equals nopcodes (the
        source stops with an error otherwise). */
    method Initialize() returns (ok: bool)
      requires exists e :: 0 <= e < table.Length && table[e].code == EndCode
      modifies this`nopcodes, table
      ensures nopcodes < table.Length && table[nopcodes].code == EndCode
      ensures forall j :: 0 <= j < nopcodes ==> old(table[j]).code != EndCode
      ensures SortedByCode(table[..nopcodes]) && multiset(table[..nopcodes]) == multiset(old(table[..])[..nopcodes])
      ensures table[nopcodes..] == old(table[..])[nopcodes..]
      ensures ok <==> nopcodes == EndCode
    {
      var n := RowsBeforeEnd();
      var sorted := SortByCode(table[..n]);
      WriteFront(sorted);
      nopcodes := n;
      ok := table[nopcodes].code == nopcodes;
    }

    /** The counting loop of opcode_initialize: the index of the first OP_END row. */
    method RowsBeforeEnd() returns (n: nat)
      requires exists e :: 0 <= e < table.Length && table[e].code == EndCode
      ensures n < table.Length && table[n].code == EndCode
      ensures forall j :: 0 <= j < n ==> table[j].code != EndCode
    {
      ghost var e :| 0 <= e < table.Length && table[e].code == EndCode;
      n := 0;
      while table[n].code != EndCode
        invariant 0 <= n <= e
        invariant forall j :: 0 <= j < n ==> table[j].code != EndCode
        decreases e - n
      {
        n := n + 1;
      }
    }

    /** Writes rows over the front of the table, in place. */
    method WriteFront(rows: seq<OpcodeInfo>)
      requires |rows| <= table.Length
      modifies table
      ensures table[..|rows|] == rows
      ensures table[|rows|..] == old(table[..])[|rows|..]
    {
      var i := 0;
      while i < |rows|
        invariant 0 <= i <= |rows|
        invariant table[..i] == rows[..i]
        invariant table[i..] == old(table[..])[i..]
      {
        table[i] := rows[i];
        i := i + 1;
        assert table[..i] == rows[..i];
      }
    }

    /** opcode_getflags: no properties for an opcode beyond the table. */
    function GetFlags(opcode: nat): (f: set<Flag>)
      requires nopcodes < table.Length
      reads this, table
      ensures opcode > nopcodes ==> f == {}
      ensures opcode <= nopcodes ==> f == table[opcode].flags
    {
      if opcode > nopcodes then {} else table[opcode].flags
    }

    /** opcode_getprocessfn: none for an opcode beyond the table. */
    function GetProcessFn(opcode: nat): (p: ProcessFn)
      requires nopcodes < table.Length
      reads this, table
      ensures opcode > nopcodes ==> p == NoProcess
      ensures opcode <= nopcodes ==> p == table[opcode].process
    {
      if opcode > nopcodes then NoProcess else table[opcode].process
    }

    /** After a successful initialization of a table whose rows before
        OP_END describe distinct opcodes below OP_END, looking an opcode up
        finds the properties of its own row, and any opcode past OP_END has
        none. */
    lemma LookupFindsRow(row: OpcodeInfo, opcode: nat)
      requires nopcodes < table.Length && table[nopcodes].code == EndCode && nopcodes == EndCode
      requires SortedByCode(table[..nopcodes]) && DistinctCodes(table[..nopcodes])
      requires forall j :: 0 <= j < nopcodes ==> table[j].code < EndCode
      requires row in table[..nopcodes + 1]
      ensures GetFlags(row.code) == row.flags && GetProcessFn(row.code) == row.process
      ensures opcode > EndCode ==> GetFlags(opcode) == {} && GetProcessFn(opcode) == NoProcess
    {
      var rows := table[..nopcodes];
      SortedCodesAreIndices(rows);
      var k :| 0 <= k < nopcodes + 1 && table[k] == row;
      if k < nopcodes {
        assert rows[k] == row;
      }
    }
  }

  /** The definition table describes every opcode once, in order, OP_END
      last: so initialization finds EndCode rows before OP_END, the check
      passes, and the lookup of any opcode finds its own row. */
  lemma DefinitionTableInitializes()
    ensures forall j :: 0 <= j < EndCode ==> DefinitionTable[j].code != EndCode
    ensures DefinitionTable[EndCode].code == EndCode
    ensures SortedByCode(DefinitionTable[..EndCode]) && DistinctCodes(DefinitionTable[..EndCode])
    ensures forall j :: 0 <= j < EndCode ==> DefinitionTable[j].code < EndCode
  {
    DefinitionTableIsIndexed();
  }

  /** Every branch ends its block; exactly the four branch opcodes branch. */
  lemma BranchesEndBlocks(op: Op)
    ensures Branch in Flags(op) ==> EndsBlock in Flags(op)
    ensures Branch in Flags(op) <==> op in {PopErr, B, Bif, Biff}
  {
  }

  /** Only OP_BIF and OP_BIFF are conditional, and they read register A. */
  lemma ConditionalBranches(op: Op)
    ensures Conditional in Flags(op) <==> op in {Bif, Biff}
    ensures Conditional in Flags(op) ==> UsesA in Flags(op) && Branch in Flags(op)
  {
  }

  /** OP_RETURN and OP_END terminate; both end their block. */
  lemma TerminatingOpcodes(op: Op)
    ensures Terminating in Flags(op) <==> op in {Return, End}
    ensures Terminating in Flags(op) ==> EndsBlock in Flags(op)
  {
  }

  /** The binary arithmetic and comparison opcodes overwrite A from B and C;
      OP_NOT overwrites A from B alone. */
  lemma ArithmeticFlags(op: Op)
    ensures IsArithmeticOrCompare(op) && op != Not ==> Flags(op) == {OverwritesA, UsesB, UsesC}
    ensures Flags(Not) == {OverwritesA, UsesB}
  {
  }

  /** Only OP_LCT and OP_LGL carry process functions; OP_PUSHERR has no
      properties, so the layout never treats it as a branch. */
  lemma ProcessOpcodes(op: Op)
    ensures InfoOf(op).process != NoProcess <==> op in {Lct, Lgl}
    ensures Flags(PushErr) == {}
  {
  }

  /** Only OP_LIX overwrites B; OP_CLOSEUP and OP_CLOSURE are unsupported. */
  lemma SingularOpcodes(op: Op)
    ensures OverwritesB in Flags(op) <==> op == Lix
    ensures Unsupported in Flags(op) <==> op in {CloseUp, Closure}
  {
  }
}
