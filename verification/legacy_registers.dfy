/** What the superseded optimizer (old/optimizecheck.c) computes from its
    register records: invalidation, the arithmetic type rule, the search for
    the register a copy came from, and the merge of the states that
    predecessor blocks leave behind. */
module LegacyRegisters {
  import opened Values
  import opened LegacyState

  /** optimize_reginvalidate on the first n registers: the ones holding
      (t, id) now hold an unknown value; nothing else changes. */
  function Invalidated(s: seq<RegState>, n: nat, t: Provenance, id: int): (r: seq<RegState>)
    requires n <= |s|
    ensures |r| == |s|
    ensures t != Value ==> forall i :: 0 <= i < n ==> !(r[i].contains == t && r[i].id == id)
    ensures forall i :: 0 <= i < n && s[i].contains == t && s[i].id == id ==> r[i] == s[i].(contains := Value)
    ensures forall i :: 0 <= i < |s| && !(i < n && s[i].contains == t && s[i].id == id) ==> r[i] == s[i]
  {
    seq(|s|, i requires 0 <= i < |s| => if i < n && s[i].contains == t && s[i].id == id then s[i].(contains := Value) else s[i])
  }

  /** MORPHO_INTEGER(1) and MORPHO_FLOAT(1.0), the samples used as type tags
      (the float by its IEEE 754 double bit pattern). */
  const IntTag: Val := Int(1)
  const FloatTag: Val := Float(0x3FF0_0000_0000_0000)

  predicate IsNumberTag(v: Val) { v.Int? || v.Float? }

  /** optimize_resolvearithmetictype: the type hint of the result of an
      arithmetic instruction from the hints of its operands B and C. */
  function ArithmeticType(tb: Val, tc: Val): (ta: Val)
    ensures ta == IntTag <==> tb.Int? && tc.Int?
    ensures ta == FloatTag <==> IsNumberTag(tb) && IsNumberTag(tc) && (tb.Float? || tc.Float?)
    ensures ta == Nil <==> !(IsNumberTag(tb) && IsNumberTag(tc))
  {
    if tb.Int? && tc.Int? then IntTag
    else if (tb.Int? && tc.Float?) || (tb.Float? && tc.Int?) || (tb.Float? && tc.Float?) then FloatTag
    else Nil
  }

  /** The rule does not depend on the order of the operands. */
  lemma ArithmeticTypeSymmetric(tb: Val, tc: Val)
    ensures ArithmeticType(tb, tc) == ArithmeticType(tc, tb)
  {
  }

  /** Every register recorded as a copy names a register. */
  predicate CopiesInRange(s: seq<RegState>)
  {
    forall i :: 0 <= i < |s| && s[i].contains == Register ==> 0 <= s[i].id < |s|
  }

  /** The register reached from r by following copy records n times,
      standing still at a register that is not a copy. */
  function Follow(s: seq<RegState>, r: nat, n: nat): (x: nat)
    requires r < |s| && CopiesInRange(s)
    ensures x < |s|
  {
    if n == 0 then r
    else
      var p := Follow(s, r, n - 1);
      if s[p].contains == Register then s[p].id else p
  }

  /** The search in optimize_findoriginalregister ends after n steps: it
      has reached a register that is not a copy, or come back to r. */
  predicate Stops(s: seq<RegState>, r: nat, n: nat)
    requires r < |s| && CopiesInRange(s)
  {
    s[Follow(s, r, n)].contains != Register || (n > 0 && Follow(s, r, n) == r)
  }

  /** o is what the search returns from r: where it first stops. */
  ghost predicate OriginalOf(s: seq<RegState>, r: nat, o: nat)
    requires r < |s| && CopiesInRange(s)
  {
    exists n: nat :: Stops(s, r, n) && Follow(s, r, n) == o && forall m :: 0 <= m < n ==> !Stops(s, r, m)
  }

  /** optimize_findoriginalregister: follows copy records from r until a
      register that is not a copy, or back to r on a cycle through r. The
      source loops for ever on a cycle that does not pass through r, so the
      search must end for some number of steps. */
  method FindOriginalRegister(s: seq<RegState>, r: nat) returns (out: nat)
    requires r < |s| && CopiesInRange(s)
    requires exists n: nat :: Stops(s, r, n)
    ensures out < |s| && OriginalOf(s, r, out)
    ensures s[out].contains != Register || out == r
  {
    ghost var bound: nat :| Stops(s, r, bound);
    ghost var steps: nat := 0;
    out := r;
    while s[out].contains == Register
      invariant out == Follow(s, r, steps)
      invariant forall m :: 0 <= m < steps ==> !Stops(s, r, m)
      invariant steps == 0 || out != r
      invariant steps <= bound
      decreases bound - steps
    {
      assert !Stops(s, r, steps);
      out := s[out].id;
      steps := steps + 1;
      if out == r {
        assert Stops(s, r, steps) && Follow(s, r, steps) == out;
        return;
      }
    }
    assert Stops(s, r, steps) && Follow(s, r, steps) == out;
  }

  /** The search has one answer. */
  lemma OriginalIsUnique(s: seq<RegState>, r: nat, o1: nat, o2: nat)
    requires r < |s| && CopiesInRange(s)
    requires OriginalOf(s, r, o1) && OriginalOf(s, r, o2)
    ensures o1 == o2
  {
    var n1: nat :| Stops(s, r, n1) && Follow(s, r, n1) == o1 && forall m :: 0 <= m < n1 ==> !Stops(s, r, m);
    var n2: nat :| Stops(s, r, n2) && Follow(s, r, n2) == o2 && forall m :: 0 <= m < n2 ==> !Stops(s, r, m);
  }

  /** Three registers where r0 copies r1, r1 copies r2 and r2 copies r1. */
  function CycleBesideStart(): (s: seq<RegState>)
    ensures |s| == 3 && CopiesInRange(s)
  {
    [RegState(Register, 1, 0, 0, 0, Nil),
     RegState(Register, 2, 0, 0, 0, Nil),
     RegState(Register, 1, 0, 0, 0, Nil)]
  }

  /** On a cycle that does not pass through the start the search never
      stops, which is why FindOriginalRegister asks for a stopping point. */
  lemma {:induction false} CycleBesideStartNeverStops(n: nat)
    ensures Follow(CycleBesideStart(), 0, n) == (if n == 0 then 0 else if n % 2 == 1 then 1 else 2)
    ensures !Stops(CycleBesideStart(), 0, n)
  {
    if n > 0 {
      CycleBesideStartNeverStops(n - 1);
    }
  }

  /** max(a, b) */
  function Max(a: int, b: int): int { if a >= b then a else b }

  /** A later predecessor's record agrees with the merged one: it holds
      nothing, or the same provenance and index. */
  predicate Agrees(cur: RegState, src: RegState)
  {
    src.contains == Nothing || (src.contains == cur.contains && src.id == cur.id)
  }

  /** One register of optimize_restoreregisterstate's merge of a later
      predecessor's record src into the merged record cur. The test that
      the merged record held nothing is made after it was set to VALUE, so
      only an unset block is ever replaced. */
  function MergeEntry(cur: RegState, src: RegState): (r: RegState)
    ensures Agrees(cur, src) ==> r == cur
    ensures !Agrees(cur, src) ==> r.contains == Value && r.used == Max(cur.used, src.used)
    ensures r.id == cur.id && r.iix == cur.iix && r.typ == cur.typ && r.used >= cur.used
    ensures r.block != cur.block ==> cur.block == CodeBlockDestEmpty && r.block == src.block
  {
    if src.contains == Nothing then cur
    else if cur.contains != src.contains || cur.id != src.id then
      var v := cur.(contains := Value);
      var v' := if v.contains == Nothing || v.block == CodeBlockDestEmpty then v.(block := src.block) else v;
      if src.used > v'.used then v'.(used := src.used) else v'
    else cur
  }

  /** The merged records after the first k registers of predecessor p. */
  function MergedUpTo(s: seq<RegState>, p: seq<RegState>, k: nat): (r: seq<RegState>)
    ensures |r| == |s|
    ensures forall j :: 0 <= j < |s| && j < k && j < |p| ==> r[j] == MergeEntry(s[j], p[j])
    ensures forall j :: 0 <= j < |s| && !(j < k && j < |p|) ==> r[j] == s[j]
  {
    seq(|s|, j requires 0 <= j < |s| => if j < k && j < |p| then MergeEntry(s[j], p[j]) else s[j])
  }

  /** Merging the predecessors ps, one after another, into s. */
  function MergeAll(s: seq<RegState>, ps: seq<seq<RegState>>): (r: seq<RegState>)
    ensures |r| == |s|
    decreases |ps|
  {
    if |ps| == 0 then s
    else
      var last := ps[|ps| - 1];
      MergedUpTo(MergeAll(s, ps[..|ps| - 1]), last, |last|)
  }

  /** The records after the first k registers of predecessor p were copied. */
  function CopiedUpTo(s: seq<RegState>, p: seq<RegState>, k: nat): (r: seq<RegState>)
    ensures |r| == |s|
    ensures forall j :: 0 <= j < |s| && j < k && j < |p| ==> r[j] == p[j]
    ensures forall j :: 0 <= j < |s| && !(j < k && j < |p|) ==> r[j] == s[j]
  {
    seq(|s|, j requires 0 <= j < |s| => if j < k && j < |p| then p[j] else s[j])
  }

  /** optimize_restoreregisterstate on the records: the first predecessor's
      records are copied, then every later predecessor is merged in. */
  function Restored(s: seq<RegState>, ps: seq<seq<RegState>>): (r: seq<RegState>)
    ensures |r| == |s|
  {
    if |ps| == 0 then s else MergeAll(CopiedUpTo(s, ps[0], |ps[0]|), ps[1..])
  }

  /** The largest of m and the sizes of the predecessors ps. */
  function MaxSize(m: nat, ps: seq<seq<RegState>>): (r: nat)
    ensures r >= m
    decreases |ps|
  {
    if |ps| == 0 then m else Max(MaxSize(m, ps[..|ps| - 1]), |ps[|ps| - 1]|)
  }

  /** MaxSize bounds every size and is m or one of them. */
  lemma {:induction false} MaxSizeIsMax(m: nat, ps: seq<seq<RegState>>)
    ensures forall i :: 0 <= i < |ps| ==> MaxSize(m, ps) >= |ps[i]|
    ensures MaxSize(m, ps) == m || exists i :: 0 <= i < |ps| && MaxSize(m, ps) == |ps[i]|
    decreases |ps|
  {
    if |ps| > 0 {
      var front := ps[..|ps| - 1];
      MaxSizeIsMax(m, front);
      assert forall i :: 0 <= i < |front| ==> ps[i] == front[i];
      if MaxSize(m, ps) != m && MaxSize(m, ps) != |ps[|ps| - 1]| {
        var i :| 0 <= i < |front| && MaxSize(m, front) == |front[i]|;
        assert MaxSize(m, ps) == |ps[i]|;
      }
    }
  }

  /** optimize_restoreregisterstate on maxreg: only the predecessors after
      the first can raise it. */
  function RestoredMaxReg(m: nat, ps: seq<seq<RegState>>): (r: nat)
    ensures r >= m
  {
    if |ps| == 0 then m else MaxSize(m, ps[1..])
  }

  /** maxreg covers every predecessor after the first and grows only to
      the size of one of them. */
  lemma RestoredMaxRegBounds(m: nat, ps: seq<seq<RegState>>)
    ensures forall i :: 1 <= i < |ps| ==> RestoredMaxReg(m, ps) >= |ps[i]|
    ensures RestoredMaxReg(m, ps) == m || exists i :: 1 <= i < |ps| && RestoredMaxReg(m, ps) == |ps[i]|
  {
    if |ps| > 0 {
      MaxSizeIsMax(m, ps[1..]);
      assert forall i :: 1 <= i < |ps| ==> ps[i] == ps[1..][i - 1];
      if RestoredMaxReg(m, ps) != m {
        var i :| 0 <= i < |ps[1..]| && MaxSize(m, ps[1..]) == |ps[1..][i]|;
        assert RestoredMaxReg(m, ps) == |ps[i + 1]|;
      }
    }
  }

  /** Register j after merging: unchanged when every predecessor agrees
      with it, VALUE with the same index as soon as one disagrees (VALUE
      absorbs every later predecessor), and its use count never drops. */
  lemma {:induction false} MergeAllEntry(s: seq<RegState>, ps: seq<seq<RegState>>, j: nat)
    requires j < |s|
    ensures (forall i :: 0 <= i < |ps| && j < |ps[i]| ==> Agrees(s[j], ps[i][j])) ==> MergeAll(s, ps)[j] == s[j]
    ensures (exists i :: 0 <= i < |ps| && j < |ps[i]| && !Agrees(s[j], ps[i][j])) ==> MergeAll(s, ps)[j].contains == Value
    ensures MergeAll(s, ps)[j].id == s[j].id && MergeAll(s, ps)[j].used >= s[j].used
    decreases |ps|
  {
    if |ps| > 0 {
      var front := ps[..|ps| - 1];
      MergeAllEntry(s, front, j);
      assert forall i :: 0 <= i < |front| ==> front[i] == ps[i];
      if exists i :: 0 <= i < |ps| && j < |ps[i]| && !Agrees(s[j], ps[i][j]) {
        var i :| 0 <= i < |ps| && j < |ps[i]| && !Agrees(s[j], ps[i][j]);
        if i < |front| {
          assert MergeAll(s, front)[j].contains == Value;
        }
      }
    }
  }

  /** Register j after restoring from predecessors ps: the first
      predecessor's record when it has one (the block's own otherwise),
      kept when the later predecessors agree with it and VALUE when one of
      them disagrees. With a single predecessor its records are copied
      verbatim. */
  lemma RestoredEntry(s: seq<RegState>, ps: seq<seq<RegState>>, j: nat)
    requires j < |s| && |ps| > 0
    ensures var base := if j < |ps[0]| then ps[0][j] else s[j];
      ((forall i :: 1 <= i < |ps| && j < |ps[i]| ==> Agrees(base, ps[i][j])) ==> Restored(s, ps)[j] == base) &&
      ((exists i :: 1 <= i < |ps| && j < |ps[i]| && !Agrees(base, ps[i][j])) ==> Restored(s, ps)[j].contains == Value)
  {
    var c := CopiedUpTo(s, ps[0], |ps[0]|);
    MergeAllEntry(c, ps[1..], j);
    assert forall i :: 1 <= i < |ps| ==> ps[i] == ps[1..][i - 1];
    if exists i :: 1 <= i < |ps| && j < |ps[i]| && !Agrees(c[j], ps[i][j]) {
      var i :| 1 <= i < |ps| && j < |ps[i]| && !Agrees(c[j], ps[i][j]);
      assert ps[1..][i - 1] == ps[i];
    }
  }
}
