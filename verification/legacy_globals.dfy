/** How the superseded optimizer summarises the stores into one global
    (old/optimizecheck.c). */
module LegacyGlobals {
  import opened Values
  import opened LegacyState

  /** A store into a global: the provenance and index of the stored value. */
  type Store = (Provenance, int)

  /** optimize_globalcontents on one record. The first store is recorded as
      it is; a store of the same provenance keeps it but forgets the index
      when the indices differ; a store of another provenance leaves an
      unknown value. */
  function ContentsJoin(g: GlobalRecord, t: Provenance, id: int): (r: GlobalRecord)
    ensures r.used == g.used && r.typ == g.typ && r.contents == g.contents
    ensures g.contains == Nothing ==> r.contains == t && r.id == id
    ensures g.contains != Nothing ==> (r.contains == g.contains <==> t == g.contains || g.contains == Value)
    ensures g.contains != Nothing && r.contains != g.contains ==> r.contains == Value
    ensures g.contains != Nothing && (t != g.contains || id != g.id) ==> r.id == GlobalUnallocated
    ensures t == g.contains && id == g.id ==> r == g
  {
    if g.contains == Nothing then g.(contains := t, id := id)
    else if g.contains == t then
      if g.id != id then g.(id := GlobalUnallocated) else g
    else g.(contains := Value, id := GlobalUnallocated)
  }

  /** A run of stores, first to last. */
  function JoinAll(g: GlobalRecord, ws: seq<Store>): GlobalRecord
    decreases |ws|
  {
    if |ws| == 0 then g else JoinAll(ContentsJoin(g, ws[0].0, ws[0].1), ws[1..])
  }

  /** Once something is recorded, a run of stores keeps its provenance only
      when every store has that provenance (VALUE otherwise, so VALUE is
      absorbing), and keeps its index only when every store repeats it. */
  lemma {:induction false} JoinAllFrom(g: GlobalRecord, ws: seq<Store>)
    requires g.contains != Nothing
    ensures JoinAll(g, ws).contains == if forall i :: 0 <= i < |ws| ==> ws[i].0 == g.contains then g.contains else Value
    ensures JoinAll(g, ws).id == if forall i :: 0 <= i < |ws| ==> ws[i] == (g.contains, g.id) then g.id else GlobalUnallocated
    decreases |ws|
  {
    if |ws| > 0 {
      var g' := ContentsJoin(g, ws[0].0, ws[0].1);
      JoinAllFrom(g', ws[1..]);
      assert forall i :: 1 <= i < |ws| ==> ws[i] == ws[1..][i - 1];
      if ws[0] != (g.contains, g.id) {
        assert g'.id == GlobalUnallocated;
        if ws[0].0 != g.contains {
          assert g'.contains == Value;
        }
      }
    }
  }

  /** Starting from a global nothing was stored into, stores of known
      provenance (the only kind the store-tracking rule records) leave the
      common provenance when all agree on it and VALUE otherwise, and the
      common index when all stores are the same and GLOBAL_UNALLOCATED
      otherwise. The result does not depend on the order of the stores. */
  lemma StoresFromNothing(g: GlobalRecord, ws: seq<Store>)
    requires g.contains == Nothing && |ws| > 0
    requires forall i :: 0 <= i < |ws| ==> ws[i].0 != Nothing
    ensures JoinAll(g, ws).contains == if forall i :: 0 <= i < |ws| ==> ws[i].0 == ws[0].0 then ws[0].0 else Value
    ensures JoinAll(g, ws).id == if forall i :: 0 <= i < |ws| ==> ws[i] == ws[0] then ws[0].1 else GlobalUnallocated
  {
    var g' := ContentsJoin(g, ws[0].0, ws[0].1);
    JoinAllFrom(g', ws[1..]);
    assert forall i :: 1 <= i < |ws| ==> ws[i] == ws[1..][i - 1];
  }

  /** optimize_updateglobalcontents on one record: the first value stored
      into a nil record is kept; an ambiguous record stays ambiguous; a value
      unequal to the recorded one makes it ambiguous. */
  function ContentsUpdate(g: GlobalRecord, v: Val): (r: GlobalRecord)
    ensures r.contains == g.contains && r.id == g.id && r.used == g.used && r.typ == g.typ
    ensures g.contents == Nil ==> r.contents == v
    ensures g.contents == Ambiguous ==> r.contents == Ambiguous
    ensures g.contents != Nil ==> (r.contents == g.contents <==> v == g.contents || g.contents == Ambiguous)
    ensures g.contents != Nil && r.contents != g.contents ==> r.contents == Ambiguous
  {
    if g.contents == Nil then g.(contents := v)
    else if g.contents == Ambiguous then g
    else if v != g.contents then g.(contents := Ambiguous)
    else g
  }

  /** A run of value updates, first to last. */
  function UpdateAll(g: GlobalRecord, vs: seq<Val>): GlobalRecord
    decreases |vs|
  {
    if |vs| == 0 then g else UpdateAll(ContentsUpdate(g, vs[0]), vs[1..])
  }

  /** Once a non-nil value is recorded, it survives a run of updates exactly
      when every update stores that value; otherwise the record ends up
      ambiguous. */
  lemma {:induction false} UpdateAllFrom(g: GlobalRecord, vs: seq<Val>)
    requires g.contents != Nil
    ensures UpdateAll(g, vs).contents == if forall i :: 0 <= i < |vs| ==> vs[i] == g.contents then g.contents else Ambiguous
    decreases |vs|
  {
    if |vs| > 0 {
      var g' := ContentsUpdate(g, vs[0]);
      UpdateAllFrom(g', vs[1..]);
      assert forall i :: 1 <= i < |vs| ==> vs[i] == vs[1..][i - 1];
    }
  }

  /** The number of leading nil values. */
  function LeadingNils(vs: seq<Val>): (k: nat)
    ensures k <= |vs|
    ensures forall i :: 0 <= i < k ==> vs[i] == Nil
    ensures k < |vs| ==> vs[k] != Nil
    decreases |vs|
  {
    if |vs| == 0 || vs[0] != Nil then 0 else 1 + LeadingNils(vs[1..])
  }

  /** From a nil record, a run of updates leaves nil when every value is
      nil, the first non-nil value when every later value equals it, and
      OPTIMIZER_AMBIGUOUS otherwise (a nil after a value counts as a
      different value). */
  lemma {:induction false} UpdatesFromNil(g: GlobalRecord, vs: seq<Val>)
    requires g.contents == Nil
    ensures var k := LeadingNils(vs);
      UpdateAll(g, vs).contents ==
        if k == |vs| then Nil
        else if forall i :: k <= i < |vs| ==> vs[i] == vs[k] then vs[k]
        else Ambiguous
    decreases |vs|
  {
    if |vs| > 0 {
      var g' := ContentsUpdate(g, vs[0]);
      assert forall i :: 1 <= i < |vs| ==> vs[i] == vs[1..][i - 1];
      if vs[0] == Nil {
        UpdatesFromNil(g', vs[1..]);
        assert LeadingNils(vs) == 1 + LeadingNils(vs[1..]);
      } else {
        UpdateAllFrom(g', vs[1..]);
      }
    }
  }
}
