/** The state the superseded optimizer (old/optimizecheck.c) updates as it
    walks a block, and the rewrite rules that replace the instruction being
    optimized. */
module LegacyOptimizer {
  import opened Values
  import opened Bytecode
  import opened LegacyState
  import opened LegacyGlobals
  import opened LegacyRegisters

  /** Register x holds (t, id), was written in block `block`, and by an
      instruction before `before`. */
  predicate Holds(x: RegState, t: Provenance, id: int, block: int, before: int)
  {
    x.contains == t && x.id == id && x.block == block && x.iix < before
  }

  /** The lowest register from i up to n that holds (t, id) in the block,
      written before `before`. */
  function FirstHolder(s: seq<RegState>, n: nat, t: Provenance, id: int, block: int, before: int, i: nat): (k: Option<nat>)
    requires n <= |s| && i <= n
    ensures k.Some? ==> i <= k.value < n && Holds(s[k.value], t, id, block, before)
    ensures k.Some? ==> forall j :: i <= j < k.value ==> !Holds(s[j], t, id, block, before)
    ensures k.None? ==> forall j :: i <= j < n ==> !Holds(s[j], t, id, block, before)
    decreases n - i
  {
    if i == n then None
    else if Holds(s[i], t, id, block, before) then Some(i)
    else FirstHolder(s, n, t, id, block, before, i + 1)
  }

  /** The optimizer: register records (the first maxreg of them in use),
      the global records (absent when globals are not tracked), and the
      instruction being optimized with its block and index. */
  class Optimizer {
    var reg: array<RegState>
    var maxreg: nat
    var globals: array?<GlobalRecord>
    var current: Instr
    var currentblock: int
    var currentindx: int

    ghost predicate Valid()
      reads this
    {
      maxreg <= reg.Length
    }

    constructor Init(reg: array<RegState>, maxreg: nat, globals: array?<GlobalRecord>, current: Instr, block: int, indx: int)
      requires maxreg <= reg.Length
      ensures Valid()
      ensures this.reg == reg && this.maxreg == maxreg && this.globals == globals
      ensures this.current == current && currentblock == block && currentindx == indx
    {
      this.reg := reg;
      this.maxreg := maxreg;
      this.globals := globals;
      this.current := current;
      currentblock := block;
      currentindx := indx;
    }

    /** optimize_globalcontents: records a store of (t, id) into global ix;
        nothing happens when globals are not tracked. */
    method GlobalContents(ix: nat, t: Provenance, id: int)
      requires globals != null ==> ix < globals.Length
      modifies globals
      ensures globals != null ==> globals[..] == old(globals[..])[ix := ContentsJoin(old(globals[ix]), t, id)]
    {
      if globals != null {
        var g := globals[ix];
        if g.contains == Nothing {
          globals[ix] := g.(contains := t, id := id);
        } else if g.contains == t {
          if g.id != id {
            globals[ix] := g.(id := GlobalUnallocated);
          }
        } else {
          globals[ix] := g.(contains := Value, id := GlobalUnallocated);
        }
      }
    }

    /** optimize_updateglobalcontents: records that value v was stored into
        global ix; nothing happens when globals are not tracked. */
    method UpdateGlobalContents(ix: nat, v: Val)
      requires globals != null ==> ix < globals.Length
      modifies globals
      ensures globals != null ==> globals[..] == old(globals[..])[ix := ContentsUpdate(old(globals[ix]), v)]
    {
      if globals != null {
        if globals[ix].contents == Nil {
          globals[ix] := globals[ix].(contents := v);
        } else if globals[ix].contents == Ambiguous {
          return;
        } else if v != globals[ix].contents {
          globals[ix] := globals[ix].(contents := Ambiguous);
        }
      }
    }

    /** optimize_reginvalidate: registers in use that hold (t, id) now hold
        an unknown value. */
    method RegInvalidate(t: Provenance, id: int)
      requires Valid()
      modifies reg
      ensures reg[..] == Invalidated(old(reg[..]), maxreg, t, id)
    {
      var i := 0;
      while i < maxreg
        invariant 0 <= i <= maxreg
        invariant reg[..] == Invalidated(old(reg[..]), i, t, id)
      {
        if reg[i].contains == t && reg[i].id == id {
          reg[i] := reg[i].(contains := Value);
        }
        i := i + 1;
      }
    }

    /** The shared body of the two duplicate-load rules: when a register in
        use already holds (t, Bx) in this block, written earlier, the load
        into A becomes a move from the lowest such register, or a NOP when
        that register is A itself, and the rule reports success. */
    method ReplaceDuplicateLoad(t: Provenance) returns (ok: bool)
      requires Valid() && current.Long?
      modifies this`current
      ensures ok <==> FirstHolder(reg[..], maxreg, t, old(current).x, currentblock, currentindx, 0).Some?
      ensures !ok ==> current == old(current)
      ensures ok && FirstHolder(reg[..], maxreg, t, old(current).x, currentblock, currentindx, 0).value != old(current).a ==>
        current == MovInstr(old(current).a, FirstHolder(reg[..], maxreg, t, old(current).x, currentblock, currentindx, 0).value)
      ensures ok && FirstHolder(reg[..], maxreg, t, old(current).x, currentblock, currentindx, 0).value == old(current).a ==>
        current == NopInstr
    {
      var out := current.a;
      var id := current.x;
      var i := 0;
      while i < maxreg
        invariant 0 <= i <= maxreg
        invariant current == old(current)
        invariant FirstHolder(reg[..], maxreg, t, id, currentblock, currentindx, 0) == FirstHolder(reg[..], maxreg, t, id, currentblock, currentindx, i)
      {
        if reg[i].contains == t && reg[i].id == id && reg[i].block == currentblock && reg[i].iix < currentindx {
          if i != out {
            current := MovInstr(out, i);
          } else {
            current := NopInstr;
          }
          return true;
        }
        i := i + 1;
      }
      return false;
    }

    /** optimize_duplicate_loadconst, on LCT A, Bx. */
    method DuplicateLoadConst() returns (ok: bool)
      requires Valid() && current.Long?
      modifies this`current
      ensures ok <==> FirstHolder(reg[..], maxreg, Constant, old(current).x, currentblock, currentindx, 0).Some?
      ensures !ok ==> current == old(current)
      ensures ok && FirstHolder(reg[..], maxreg, Constant, old(current).x, currentblock, currentindx, 0).value != old(current).a ==>
        current == MovInstr(old(current).a, FirstHolder(reg[..], maxreg, Constant, old(current).x, currentblock, currentindx, 0).value)
      ensures ok && FirstHolder(reg[..], maxreg, Constant, old(current).x, currentblock, currentindx, 0).value == old(current).a ==>
        current == NopInstr
    {
      ok := ReplaceDuplicateLoad(Constant);
    }

    /** optimize_duplicate_loadglobal, on LGL A, Bx. */
    method DuplicateLoadGlobal() returns (ok: bool)
      requires Valid() && current.Long?
      modifies this`current
      ensures ok <==> FirstHolder(reg[..], maxreg, Global, old(current).x, currentblock, currentindx, 0).Some?
      ensures !ok ==> current == old(current)
      ensures ok && FirstHolder(reg[..], maxreg, Global, old(current).x, currentblock, currentindx, 0).value != old(current).a ==>
        current == MovInstr(old(current).a, FirstHolder(reg[..], maxreg, Global, old(current).x, currentblock, currentindx, 0).value)
      ensures ok && FirstHolder(reg[..], maxreg, Global, old(current).x, currentblock, currentindx, 0).value == old(current).a ==>
        current == NopInstr
    {
      ok := ReplaceDuplicateLoad(Global);
    }

    /** optimize_register_replacement: an arithmetic or comparison
        instruction reads its operands B and C from the registers they were
        copied from. The rule always reports failure so that later rules
        still run. */
    method RegisterReplacement() returns (ok: bool)
      requires IsArithmeticOrCompare(current.op) ==>
        current.Abc? && current.b < reg.Length && current.c < reg.Length && CopiesInRange(reg[..]) &&
        (exists n: nat :: Stops(reg[..], current.b, n)) && (exists n: nat :: Stops(reg[..], current.c, n))
      modifies this`current
      ensures !ok
      ensures !IsArithmeticOrCompare(old(current).op) ==> current == old(current)
      ensures IsArithmeticOrCompare(old(current).op) ==>
        current.Abc? && current.op == old(current).op && current.a == old(current).a &&
        current.b < reg.Length && OriginalOf(reg[..], old(current).b, current.b) &&
        current.c < reg.Length && OriginalOf(reg[..], old(current).c, current.c)
    {
      if !IsArithmeticOrCompare(current.op) {
        return false;
      }
      var b := FindOriginalRegister(reg[..], current.b);
      var c := FindOriginalRegister(reg[..], current.c);
      current := Abc(current.op, current.a, b, c);
      return false;
    }

    /** optimize_branch_optimization: a branch by zero is a NOP. */
    method BranchOptimization() returns (ok: bool)
      requires current.Long?
      modifies this`current
      ensures ok <==> old(current).x == 0
      ensures current == if ok then NopInstr else old(current)
    {
      if current.x == 0 {
        current := NopInstr;
        return true;
      }
      return false;
    }

    /** optimize_unused_global: a store into a global nothing reads is
        removed. The rule always reports failure. */
    method UnusedGlobal() returns (ok: bool)
      requires current.Long? && globals != null && 0 <= current.x < globals.Length
      modifies this`current
      ensures !ok
      ensures current == if globals[old(current).x].used == 0 then NopInstr else old(current)
    {
      if globals[current.x].used == 0 {
        current := NopInstr;
      }
      return false;
    }

    /** The copy of the first predecessor's records in
        optimize_restoreregisterstate. */
    method CopyPredecessor(src: seq<RegState>)
      requires |src| <= reg.Length
      modifies reg
      ensures reg[..] == CopiedUpTo(old(reg[..]), src, |src|)
    {
      var j := 0;
      while j < |src|
        invariant 0 <= j <= |src|
        invariant reg[..] == CopiedUpTo(old(reg[..]), src, j)
      {
        reg[j] := src[j];
        j := j + 1;
      }
    }

    /** The merge of one later predecessor's records in
        optimize_restoreregisterstate; maxreg grows to cover them. */
    method MergePredecessor(src: seq<RegState>)
      requires Valid() && |src| <= reg.Length
      modifies reg, this`maxreg
      ensures Valid()
      ensures reg[..] == MergedUpTo(old(reg[..]), src, |src|)
      ensures maxreg == Max(old(maxreg), |src|)
    {
      var j := 0;
      while j < |src|
        invariant 0 <= j <= |src|
        invariant reg[..] == MergedUpTo(old(reg[..]), src, j) && maxreg == old(maxreg)
      {
        if src[j].contains != Nothing && (reg[j].contains != src[j].contains || reg[j].id != src[j].id) {
          reg[j] := reg[j].(contains := Value);
          if reg[j].contains == Nothing || reg[j].block == CodeBlockDestEmpty {
            reg[j] := reg[j].(block := src[j].block);
          }
          if src[j].used > reg[j].used {
            reg[j] := reg[j].(used := src[j].used);
          }
        }
        j := j + 1;
      }
      if |src| > maxreg {
        maxreg := |src|;
      }
    }

    /** optimize_restoreregisterstate: the register records at the start of
        a block, from the records its predecessors ended with (each
        predecessor's records are as many as it used). */
    method RestoreRegisterState(preds: seq<seq<RegState>>)
      requires Valid()
      requires forall i :: 0 <= i < |preds| ==> |preds[i]| <= reg.Length
      modifies reg, this`maxreg
      ensures Valid()
      ensures reg[..] == Restored(old(reg[..]), preds)
      ensures maxreg == RestoredMaxReg(old(maxreg), preds)
    {
      if |preds| == 0 {
        return;
      }
      CopyPredecessor(preds[0]);
      ghost var base := reg[..];
      var i := 1;
      while i < |preds|
        invariant 1 <= i <= |preds| && Valid()
        invariant reg[..] == MergeAll(base, preds[1..i])
        invariant maxreg == MaxSize(old(maxreg), preds[1..i])
      {
        MergePredecessor(preds[i]);
        assert preds[1..i + 1][..i - 1] == preds[1..i];
        i := i + 1;
      }
      assert preds[1..i] == preds[1..];
    }
  }
}
