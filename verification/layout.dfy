/** Lays the optimized blocks out into the final program (src/layout.c). */
module Layout {
  import opened Values
  import opened Bytecode
  import Opcodes

  /** INSTRUCTIONINDX_EMPTY */
  const NoIndex: int := -1

  /** A basic block: its first and last instruction, and its successors as
      the slots of a morpho dictionary whose keys are the successors' start
      indices (None is an empty slot). Blocks the composer creates have no
      successors recorded. */
  datatype Block = Block(start: int, end: int, dest: seq<Option<int>>)

  /** The block covers a non-empty range of the program. */
  predicate WellFormed(code: seq<Instr>, b: Block)
  {
    0 <= b.start <= b.end < |code|
  }

  predicate AllWellFormed(code: seq<Instr>, graph: seq<Block>)
  {
    forall i :: 0 <= i < |graph| ==> WellFormed(code, graph[i])
  }

  /** The instruction's opcode has the BRANCH property. */
  predicate IsBranch(instr: Instr)
  {
    Opcodes.Branch in Opcodes.Flags(instr.op)
  }

  /** Where a branch at pc goes when taken: the VM has already moved past
      the branch when it adds the offset. */
  function BranchTarget(pc: int, instr: Instr): int
    requires instr.Long?
  {
    pc + 1 + instr.x
  }

  /** The instructions of s that are not NOPs, in their order. */
  function NonNops(s: seq<Instr>): (t: seq<Instr>)
    ensures |t| <= |s|
    decreases |s|
  {
    if |s| == 0 then []
    else
      var front := NonNops(s[..|s| - 1]);
      if s[|s| - 1].op == Nop then front else front + [s[|s| - 1]]
  }

  /** No NOP survives. */
  lemma {:induction false} NonNopsHasNoNop(s: seq<Instr>)
    ensures forall j :: 0 <= j < |NonNops(s)| ==> NonNops(s)[j].op != Nop
    decreases |s|
  {
    if |s| > 0 {
      NonNopsHasNoNop(s[..|s| - 1]);
    }
  }

  /** Dropping NOPs keeps every other instruction and adds none. */
  lemma {:induction false} NonNopsMembers(s: seq<Instr>)
    ensures forall x :: x in NonNops(s) <==> x in s && x.op != Nop
    decreases |s|
  {
    if |s| > 0 {
      NonNopsMembers(s[..|s| - 1]);
      assert s == s[..|s| - 1] + [s[|s| - 1]];
    }
  }

  /** Dropping NOPs commutes with concatenation, so the order of what is
      kept is the order of the source. */
  lemma {:induction false} NonNopsAppend(s: seq<Instr>, u: seq<Instr>)
    ensures NonNops(s + u) == NonNops(s) + NonNops(u)
    decreases |u|
  {
    if |u| > 0 {
      var u' := u[..|u| - 1];
      assert (s + u)[..|s + u| - 1] == s + u';
      NonNopsAppend(s, u');
    } else {
      assert s + u == s;
    }
  }

  /** A range ending in an instruction that is not a NOP keeps that
      instruction last. */
  lemma NonNopsKeepsLast(s: seq<Instr>)
    requires |s| > 0 && s[|s| - 1].op != Nop
    ensures |NonNops(s)| > 0 && NonNops(s)[|NonNops(s)| - 1] == s[|s| - 1]
  {
  }

  /** The keys held by a run of dictionary slots, in slot order. */
  function Keys(slots: seq<Option<int>>): (keys: seq<int>)
    ensures |keys| <= |slots|
    decreases |slots|
  {
    if |slots| == 0 then []
    else
      var front := Keys(slots[..|slots| - 1]);
      match slots[|slots| - 1]
      case None => front
      case Some(k) => front + [k]
  }

  /** The keys are exactly the values of the filled slots. */
  lemma {:induction false} KeysMembers(slots: seq<Option<int>>)
    ensures forall k :: k in Keys(slots) <==> Some(k) in slots
    decreases |slots|
  {
    if |slots| > 0 {
      KeysMembers(slots[..|slots| - 1]);
      assert slots == slots[..|slots| - 1] + [slots[|slots| - 1]];
    }
  }

  /** The keys of a prefix of the slots are a prefix of all the keys. */
  lemma {:induction false} KeysOfPrefix(slots: seq<Option<int>>, i: nat)
    requires i <= |slots|
    ensures |Keys(slots[..i])| <= |Keys(slots)|
    ensures Keys(slots[..i]) == Keys(slots)[..|Keys(slots[..i])|]
    decreases |slots| - i
  {
    if i < |slots| {
      KeysOfPrefix(slots, i + 1);
      assert slots[..i + 1][..i] == slots[..i];
    } else {
      assert slots[..i] == slots;
    }
  }

  function Min(a: int, b: int): int { if a <= b then a else b }

  /** The output instruction that makes the branch `last`, placed at newend,
      jump to newdest. */
  function BranchTo(last: Instr, newend: int, newdest: int): (r: Instr)
    ensures r.Long? && r.op == last.op && r.a == last.a
    ensures BranchTarget(newend, r) == newdest
  {
    Long(last.op, last.a, newdest - newend - 1)
  }

  /** The output after _fixbrnch: the instruction at newend becomes the branch
      `last` re-aimed at the new start of the block that started at dest, when
      dest is a known block start and newend is inside the output. */
  function Patched(out: seq<Instr>, m: map<int, int>, last: Instr, newend: int, dest: int): (r: seq<Instr>)
    ensures |r| == |out|
    ensures dest in m && 0 <= newend < |out| ==> r[newend] == BranchTo(last, newend, m[dest])
    ensures dest !in m ==> r == out
  {
    if dest in m && 0 <= newend < |out| then out[newend := BranchTo(last, newend, m[dest])] else out
  }

  /** The successor blockcomposer_fixbranch re-aims a branch at, from the
      first two successor keys (INSTRUCTIONINDX_EMPTY when missing). An
      unconditional branch goes to its only successor; a conditional branch to
      the successor that is not the fall-through oldEnd + 1. */
  function DestChoice(last: Instr, oldEnd: int, keys: seq<int>): (r: int)
    ensures last.op in {B, PopErr} ==> r == (if |keys| > 0 then keys[0] else NoIndex)
    ensures last.op in {Bif, Biff} && |keys| >= 2 && keys[0] != keys[1] ==> r in keys[..2] && r != oldEnd + 1
    ensures last.op in {Bif, Biff} && |keys| >= 2 ==> r == (if keys[0] != oldEnd + 1 then keys[0] else keys[1])
    ensures last.op in {Bif, Biff} && |keys| == 1 ==> r == (if keys[0] != oldEnd + 1 then keys[0] else NoIndex)
  {
    var d0 := if |keys| > 0 then keys[0] else NoIndex;
    var d1 := if |keys| > 1 then keys[1] else NoIndex;
    if last.op == B || last.op == PopErr then d0
    else if last.op == Bif || last.op == Biff then
      if d0 != oldEnd + 1 then d0 else d1
    else NoIndex
  }

  /** The output after blockcomposer_fixbranch(oldb, newb): unchanged unless
      the old block ends in a branch, which is then re-aimed. */
  function FixSpec(out: seq<Instr>, m: map<int, int>, code: seq<Instr>, oldb: Block, newb: Block): (r: seq<Instr>)
    requires WellFormed(code, oldb)
    ensures |r| == |out|
    ensures !IsBranch(code[oldb.end]) ==> r == out
  {
    var last := code[oldb.end];
    if !IsBranch(last) then out
    else Patched(out, m, last, newb.end, DestChoice(last, oldb.end, Keys(oldb.dest)))
  }

  /** Re-aiming a block's branch changes no output instruction other than
      the new block's last one. */
  lemma FixSpecKeepsOthers(out: seq<Instr>, m: map<int, int>, code: seq<Instr>, oldb: Block, newb: Block)
    requires WellFormed(code, oldb)
    ensures forall j :: 0 <= j < |out| && j != newb.end ==> FixSpec(out, m, code, oldb, newb)[j] == out[j]
  {
  }

  /** What one block contributes to the output. */
  function Body(code: seq<Instr>, b: Block): seq<Instr>
    requires WellFormed(code, b)
  {
    NonNops(code[b.start..b.end + 1])
  }

  /** What the composer has built: the output instructions, the output
      blocks and the old-start to new-start map. */
  datatype Composed = Composed(out: seq<Instr>, blocks: seq<Block>, starts: map<int, int>)

  /** blockcomposer_processblock on values: block b's instructions other
      than NOPs are appended, its output block runs from the old end of the
      output to the new last instruction, and its old start maps to the new
      one. */
  function CopyOne(c: Composed, code: seq<Instr>, b: Block): Composed
    requires WellFormed(code, b)
  {
    var out := c.out + Body(code, b);
    Composed(out, c.blocks + [Block(|c.out|, |out| - 1, [])], c.starts[b.start := |c.out|])
  }

  /** The first loop of layout_build over the first n blocks. */
  function CopiedBlocks(code: seq<Instr>, graph: seq<Block>, n: nat): (r: Composed)
    requires AllWellFormed(code, graph) && n <= |graph|
    ensures |r.blocks| == n
  {
    if n == 0 then Composed([], [], map[]) else CopyOne(CopiedBlocks(code, graph, n - 1), code, graph[n - 1])
  }

  /** The output `base` after the branches of the first n blocks were
      re-aimed, given the start map m and the output blocks laid. */
  function Patch(base: seq<Instr>, m: map<int, int>, code: seq<Instr>, graph: seq<Block>, laid: seq<Block>, n: nat): (r: seq<Instr>)
    requires AllWellFormed(code, graph) && n <= |graph| <= |laid|
    ensures |r| == |base|
  {
    if n == 0 then base
    else FixSpec(Patch(base, m, code, graph, laid, n - 1), m, code, graph[n - 1], laid[n - 1])
  }

  /** The new program layout_build produces: every block compacted in
      order, then every block-ending branch re-aimed. */
  function Built(code: seq<Instr>, graph: seq<Block>): seq<Instr>
    requires AllWellFormed(code, graph)
  {
    var c := CopiedBlocks(code, graph, |graph|);
    Patch(c.out, c.starts, code, graph, c.blocks, |graph|)
  }

  /** Every output block whose old block ends in a branch is non-empty. */
  predicate BranchBlocksKept(code: seq<Instr>, graph: seq<Block>, laid: seq<Block>)
    requires AllWellFormed(code, graph) && |graph| <= |laid|
  {
    forall i :: 0 <= i < |graph| && IsBranch(code[graph[i].end]) ==> laid[i].end >= 0
  }

  /** Laying out more blocks only appends: the output and the output blocks
      of the first i blocks stay, in place, at the front of those of the
      first j. */
  lemma {:induction false} CopiedGrows(code: seq<Instr>, graph: seq<Block>, i: nat, j: nat)
    requires AllWellFormed(code, graph) && i <= j <= |graph|
    ensures var ci, cj := CopiedBlocks(code, graph, i), CopiedBlocks(code, graph, j);
      |ci.out| <= |cj.out| && cj.out[..|ci.out|] == ci.out && cj.blocks[..i] == ci.blocks
    decreases j - i
  {
    if i < j {
      CopiedGrows(code, graph, i, j - 1);
      var ci, cm, cj := CopiedBlocks(code, graph, i), CopiedBlocks(code, graph, j - 1), CopiedBlocks(code, graph, j);
      assert cj.out[..|cm.out|] == cm.out;
      assert cj.out[..|ci.out|] == cm.out[..|ci.out|];
      assert cj.blocks[..j - 1] == cm.blocks;
      assert cj.blocks[..i] == cm.blocks[..i];
    }
  }

  /** NOP has no properties, so a branch is never a NOP. */
  lemma BranchIsNotNop(instr: Instr)
    requires IsBranch(instr)
    ensures instr.op != Nop
  {
    assert Opcodes.Flags(Nop) == {};
  }

  /** A block that ends in a branch contributes that branch last. */
  lemma BodyEndsWithBranch(code: seq<Instr>, b: Block)
    requires WellFormed(code, b) && IsBranch(code[b.end])
    ensures |Body(code, b)| > 0 && Body(code, b)[|Body(code, b)| - 1] == code[b.end]
  {
    var s := code[b.start..b.end + 1];
    BranchIsNotNop(code[b.end]);
    assert s[|s| - 1] == code[b.end];
    NonNopsKeepsLast(s);
  }

  /** Copying a block that ends in a branch appends at least that branch,
      last. */
  lemma CopyOneEndsWithBranch(c: Composed, code: seq<Instr>, b: Block)
    requires WellFormed(code, b) && IsBranch(code[b.end])
    ensures var r := CopyOne(c, code, b); |c.out| < |r.out| && r.out[|r.out| - 1] == code[b.end]
  {
    BodyEndsWithBranch(code, b);
  }

  /** A block that ends in a branch is not empty in the output, and the
      last instruction of its output block, in the output of the first
      loop, is that branch. */
  lemma BranchBlockKeepsBranch(code: seq<Instr>, graph: seq<Block>, i: nat)
    requires AllWellFormed(code, graph) && i < |graph| && IsBranch(code[graph[i].end])
    ensures var all := CopiedBlocks(code, graph, |graph|); var nb := all.blocks[i];
      0 <= nb.start <= nb.end < |all.out| && all.out[nb.end] == code[graph[i].end]
  {
    var before := CopiedBlocks(code, graph, i);
    assert WellFormed(code, graph[i]);
    CopyOneEndsWithBranch(before, code, graph[i]);
    CopiedGrows(code, graph, i + 1, |graph|);
    KeptAt(before, CopiedBlocks(code, graph, i + 1), CopiedBlocks(code, graph, |graph|), i, code[graph[i].end]);
  }

  /** The last instruction of a grown output's block i, given the output
      before block i was copied, after, and after all blocks. */
  lemma KeptAt(before: Composed, upto: Composed, all: Composed, i: nat, x: Instr)
    requires |before.out| < |upto.out| && upto.out[|upto.out| - 1] == x
    requires i < |upto.blocks| && upto.blocks[i] == Block(|before.out|, |upto.out| - 1, [])
    requires |upto.out| <= |all.out| && all.out[..|upto.out|] == upto.out
    requires i < |all.blocks| && all.blocks[..i + 1] == upto.blocks[..i + 1]
    ensures 0 <= all.blocks[i].start <= all.blocks[i].end < |all.out| && all.out[all.blocks[i].end] == x
  {
    assert all.blocks[i] == all.blocks[..i + 1][i];
    LastKept(upto.out, all.out);
  }

  /** Hence the output blocks keep every block that ends in a branch. */
  lemma LaidKeepsBranchBlocks(code: seq<Instr>, graph: seq<Block>)
    requires AllWellFormed(code, graph)
    ensures BranchBlocksKept(code, graph, CopiedBlocks(code, graph, |graph|).blocks)
  {
    forall i | 0 <= i < |graph| && IsBranch(code[graph[i].end])
      ensures CopiedBlocks(code, graph, |graph|).blocks[i].end >= 0
    {
      BranchBlockKeepsBranch(code, graph, i);
    }
  }

  /** The source ranges of the first n blocks, one after another. */
  function Ranges(code: seq<Instr>, graph: seq<Block>, n: nat): seq<Instr>
    requires AllWellFormed(code, graph) && n <= |graph|
  {
    if n == 0 then [] else Ranges(code, graph, n - 1) + code[graph[n - 1].start..graph[n - 1].end + 1]
  }

  /** The first loop's output is the source ranges of the blocks, in block
      order, with every NOP dropped and nothing else changed. */
  lemma {:induction false} CopiedIsRangesWithoutNops(code: seq<Instr>, graph: seq<Block>, n: nat)
    requires AllWellFormed(code, graph) && n <= |graph|
    ensures CopiedBlocks(code, graph, n).out == NonNops(Ranges(code, graph, n))
    decreases n
  {
    if n > 0 {
      CopiedIsRangesWithoutNops(code, graph, n - 1);
      assert WellFormed(code, graph[n - 1]);
      NonNopsAppend(Ranges(code, graph, n - 1), code[graph[n - 1].start..graph[n - 1].end + 1]);
    }
  }

  /** Output block k runs from where the output stood before block k was
      copied to the last instruction copied for it. */
  lemma LaidBlockAt(code: seq<Instr>, graph: seq<Block>, k: nat)
    requires AllWellFormed(code, graph) && k < |graph|
    ensures CopiedBlocks(code, graph, |graph|).blocks[k] ==
      Block(|CopiedBlocks(code, graph, k).out|, |CopiedBlocks(code, graph, k + 1).out| - 1, [])
  {
    var all := CopiedBlocks(code, graph, |graph|);
    CopiedGrows(code, graph, k + 1, |graph|);
    assert all.blocks[k] == all.blocks[..k + 1][k];
  }

  /** Output blocks follow each other in block order: an earlier block
      ends before a later one starts. */
  lemma LaidInOrder(code: seq<Instr>, graph: seq<Block>, i: nat, k: nat)
    requires AllWellFormed(code, graph) && i < k < |graph|
    ensures CopiedBlocks(code, graph, |graph|).blocks[i].end < CopiedBlocks(code, graph, |graph|).blocks[k].start
  {
    var all := CopiedBlocks(code, graph, |graph|);
    assert all.blocks[i].end == |CopiedBlocks(code, graph, i + 1).out| - 1 by {
      LaidBlockAt(code, graph, i);
    }
    assert all.blocks[k].start == |CopiedBlocks(code, graph, k).out| by {
      LaidBlockAt(code, graph, k);
    }
    CopiedGrows(code, graph, i + 1, k);
  }

  /** Two different blocks that end in a branch have their branches at
      different places in the output. */
  lemma BranchEndsApart(code: seq<Instr>, graph: seq<Block>, i: nat, k: nat)
    requires AllWellFormed(code, graph) && i < k < |graph|
    requires IsBranch(code[graph[k].end])
    ensures CopiedBlocks(code, graph, |graph|).blocks[i].end < CopiedBlocks(code, graph, |graph|).blocks[k].end
  {
    LaidInOrder(code, graph, i, k);
    BranchBlockKeepsBranch(code, graph, k);
  }

  /** Re-aiming the branches of blocks j to n - 1 leaves output position p
      alone when none of those blocks ends in a branch placed at p. */
  lemma {:induction false} PatchSkips(base: seq<Instr>, m: map<int, int>, code: seq<Instr>, graph: seq<Block>, laid: seq<Block>,
                                      j: nat, n: nat, p: int)
    requires AllWellFormed(code, graph) && j <= n <= |graph| <= |laid| && 0 <= p < |base|
    requires forall k :: j <= k < n && IsBranch(code[graph[k].end]) ==> laid[k].end != p
    ensures Patch(base, m, code, graph, laid, n)[p] == Patch(base, m, code, graph, laid, j)[p]
    decreases n - j
  {
    if j < n {
      PatchSkips(base, m, code, graph, laid, j, n - 1, p);
      assert WellFormed(code, graph[n - 1]);
      FixSpecKeepsOthers(Patch(base, m, code, graph, laid, n - 1), m, code, graph[n - 1], laid[n - 1]);
    }
  }

  /** In the new program, the branch that ends block i is at the end of its
      output block and jumps to the new start of the successor chosen for
      it; when that successor is not a known block start, the branch is
      left as it was. */
  lemma BuiltAimsBranch(code: seq<Instr>, graph: seq<Block>, i: nat)
    requires AllWellFormed(code, graph) && i < |graph| && IsBranch(code[graph[i].end])
    ensures var c := CopiedBlocks(code, graph, |graph|); var e := c.blocks[i].end;
      var last := code[graph[i].end]; var dest := DestChoice(last, graph[i].end, Keys(graph[i].dest));
      0 <= e < |Built(code, graph)| &&
      Built(code, graph)[e] == (if dest in c.starts then BranchTo(last, e, c.starts[dest]) else last)
  {
    var c := CopiedBlocks(code, graph, |graph|);
    var e := c.blocks[i].end;
    BranchBlockKeepsBranch(code, graph, i);
    forall k | 0 <= k < |graph| && k != i && IsBranch(code[graph[k].end])
      ensures c.blocks[k].end != e
    {
      if k < i { BranchEndsApart(code, graph, k, i); } else { BranchEndsApart(code, graph, i, k); }
    }
    PatchSkips(c.out, c.starts, code, graph, c.blocks, i + 1, |graph|, e);
    PatchSkips(c.out, c.starts, code, graph, c.blocks, 0, i, e);
    assert WellFormed(code, graph[i]);
  }

  /** Every other position of the new program holds the instruction the
      first loop put there. */
  lemma BuiltKeepsOthers(code: seq<Instr>, graph: seq<Block>, p: int)
    requires AllWellFormed(code, graph) && 0 <= p < |CopiedBlocks(code, graph, |graph|).out|
    requires forall k :: 0 <= k < |graph| && IsBranch(code[graph[k].end]) ==> CopiedBlocks(code, graph, |graph|).blocks[k].end != p
    ensures |Built(code, graph)| == |CopiedBlocks(code, graph, |graph|).out|
    ensures Built(code, graph)[p] == CopiedBlocks(code, graph, |graph|).out[p]
  {
    var c := CopiedBlocks(code, graph, |graph|);
    PatchSkips(c.out, c.starts, code, graph, c.blocks, 0, |graph|, p);
  }

  /** The last instruction of a front of `all` is at the same place in `all`. */
  lemma LastKept(front: seq<Instr>, all: seq<Instr>)
    requires 0 < |front| <= |all| && all[..|front|] == front
    ensures all[|front| - 1] == front[|front| - 1]
  {
    assert all[..|front|][|front| - 1] == all[|front| - 1];
  }

  /** The composer: the program being laid out, the output instructions, the
      old-start to new-start map and the output blocks. */
  class BlockComposer {
    const code: seq<Instr>
    var out: seq<Instr>
    var startMap: map<int, int>
    var outgraph: seq<Block>

    /** blockcomposer_init */
    constructor (code: seq<Instr>)
      ensures this.code == code && out == [] && startMap == map[] && outgraph == []
    {
      this.code := code;
      out := [];
      startMap := map[];
      outgraph := [];
    }

    /** blockcomposer_addinstruction: appends, returning the new index. */
    method AddInstruction(instr: Instr) returns (idx: int)
      modifies this`out
      ensures out == old(out) + [instr] && idx == |old(out)|
    {
      idx := |out|;
      out := out + [instr];
    }

    /** blockcomposer_setinstructionat: overwrites one output instruction;
        an index past the output changes nothing. */
    method SetInstructionAt(i: nat, instr: Instr)
      modifies this`out
      ensures out == if i < |old(out)| then old(out)[i := instr] else old(out)
    {
      if i >= |out| { return; }
      out := out[i := instr];
    }

    /** blockcomposer_addblock: records the output block and maps the old
        block's start to the new one's. */
    method AddBlock(oldb: Block, newb: Block)
      modifies this`outgraph, this`startMap
      ensures outgraph == old(outgraph) + [newb]
      ensures startMap == old(startMap)[oldb.start := newb.start]
    {
      outgraph := outgraph + [newb];
      startMap := startMap[oldb.start := newb.start];
    }

    /** blockcomposer_map: the new start of the block that started at o, if known. */
    function Map(o: int): (r: Option<int>)
      reads this
      ensures r.Some? <==> o in startMap
      ensures r.Some? ==> r.value == startMap[o]
    {
      if o in startMap then Some(startMap[o]) else None
    }

    /** blockcomposer_processblock: appends the block's instructions other
        than NOPs, in order, and records the new block. */
    method ProcessBlock(blk: Block)
      requires WellFormed(code, blk)
      modifies this`out, this`outgraph, this`startMap
      ensures out == old(out) + NonNops(code[blk.start..blk.end + 1])
      ensures outgraph == old(outgraph) + [Block(|old(out)|, |out| - 1, [])]
      ensures startMap == old(startMap)[blk.start := |old(out)|]
    {
      var newb := Block(|out|, NoIndex, []);
      var i := blk.start;
      while i <= blk.end
        invariant blk.start <= i <= blk.end + 1
        invariant out == old(out) + NonNops(code[blk.start..i])
        invariant outgraph == old(outgraph) && startMap == old(startMap)
      {
        assert code[blk.start..i + 1] == code[blk.start..i] + [code[i]];
        var instr := code[i];
        if instr.op != Nop {
          var _ := AddInstruction(instr);
        }
        i := i + 1;
      }
      newb := newb.(end := |out| - 1);
      AddBlock(blk, newb);
    }

    /** blockcomposer_dictflatten: copies at most nmax keys of the slots, in
        slot order, to the front of indx and returns how many. */
    static method DictFlatten(slots: seq<Option<int>>, nmax: nat, indx: array<int>) returns (k: nat)
      requires nmax <= indx.Length
      modifies indx
      ensures k == Min(nmax, |Keys(slots)|)
      ensures indx[..k] == Keys(slots)[..k]
      ensures indx[k..] == old(indx[k..])
    {
      k := 0;
      var i := 0;
      while i < |slots| && k < nmax
        invariant 0 <= i <= |slots| && k <= nmax
        invariant k == |Keys(slots[..i])|
        invariant indx[..k] == Keys(slots[..i])
        invariant indx[k..] == old(indx[k..])
      {
        assert slots[..i + 1] == slots[..i] + [slots[i]];
        assert slots[..i + 1][..i] == slots[..i];
        if slots[i].Some? {
          indx[k] := slots[i].value;
          k := k + 1;
          assert indx[..k] == Keys(slots[..i]) + [slots[i].value];
        }
        i := i + 1;
      }
      KeysOfPrefix(slots, i);
      if i == |slots| {
        assert slots[..i] == slots;
      }
    }

    /** _fixbrnch: re-aims the branch at newend at the new start of dest,
        when dest is a known block start. */
    method FixBrnch(last: Instr, newend: nat, dest: int)
      modifies this`out
      ensures out == Patched(old(out), startMap, last, newend, dest)
    {
      var newdest := Map(dest);
      if newdest.Some? {
        var newinstr := Long(last.op, last.a, newdest.value - newend - 1);
        SetInstructionAt(newend, newinstr);
      }
    }

    /** blockcomposer_fixbranch: when the old block ends in a branch,
        re-aims the new block's last instruction at the chosen successor. */
    method FixBranch(oldb: Block, newb: Block)
      requires WellFormed(code, oldb)
      requires IsBranch(code[oldb.end]) ==> newb.end >= 0
      modifies this`out
      ensures out == FixSpec(old(out), startMap, code, oldb, newb)
    {
      var last := code[oldb.end];
      if !IsBranch(last) { return; }
      var dest := new int[2];
      dest[0], dest[1] := NoIndex, NoIndex;
      var n := DictFlatten(oldb.dest, 2, dest);
      ghost var keys := Keys(oldb.dest);
      assert dest[0] == (if |keys| > 0 then keys[0] else NoIndex) by {
        if n > 0 { assert dest[..n][0] == dest[0]; } else { assert dest[n..][0] == dest[0]; }
      }
      assert dest[1] == (if |keys| > 1 then keys[1] else NoIndex) by {
        if n > 1 { assert dest[..n][1] == dest[1]; } else { assert dest[n..][1 - n] == dest[1]; }
      }
      if last.op == B || last.op == PopErr {
        FixBrnch(last, newb.end, dest[0]);
      } else if last.op == Bif || last.op == Biff {
        if dest[0] != oldb.end + 1 {
          FixBrnch(last, newb.end, dest[0]);
        } else {
          FixBrnch(last, newb.end, dest[1]);
        }
      }
      // OP_PUSHERR cannot get here: the opcode table gives it no properties.
    }

    /** What has been built so far. */
    function State(): Composed
      reads this
    {
      Composed(out, outgraph, startMap)
    }

    /** The first loop of layout_build: copies every block, in order. */
    method CopyBlocks(graph: seq<Block>)
      requires AllWellFormed(code, graph) && out == [] && outgraph == [] && startMap == map[]
      modifies this`out, this`outgraph, this`startMap
      ensures State() == CopiedBlocks(code, graph, |graph|)
    {
      var i := 0;
      while i < |graph|
        invariant 0 <= i <= |graph|
        invariant State() == CopiedBlocks(code, graph, i)
      {
        assert WellFormed(code, graph[i]);
        ProcessBlock(graph[i]);
        i := i + 1;
      }
    }

    /** The second loop of layout_build: re-aims every block-ending branch. */
    method FixBranches(graph: seq<Block>)
      requires AllWellFormed(code, graph) && |graph| <= |outgraph|
      requires BranchBlocksKept(code, graph, outgraph)
      modifies this`out
      ensures out == Patch(old(out), startMap, code, graph, outgraph, |graph|)
    {
      var i := 0;
      while i < |graph|
        invariant 0 <= i <= |graph|
        invariant out == Patch(old(out), startMap, code, graph, outgraph, i)
      {
        assert WellFormed(code, graph[i]);
        FixBranch(graph[i], outgraph[i]);
        i := i + 1;
      }
    }
  }

  /** layout_build over blocks already in ascending start order: copies
      every block, then re-aims every block-ending branch, and returns the new
      program. */
  method LayoutBuild(code: seq<Instr>, graph: seq<Block>) returns (newCode: seq<Instr>)
    requires AllWellFormed(code, graph)
    ensures newCode == Built(code, graph)
  {
    var comp := new BlockComposer(code);
    comp.CopyBlocks(graph);
    LaidKeepsBranchBlocks(code, graph);
    comp.FixBranches(graph);
    newCode := comp.out;
  }
}
