/** reginfolist_write and reginfolist_unduplicate as src/reginfo.c writes
    them, kept beside the corrected versions in RegInfo to exhibit where the
    two part ways. */
module RegInfoAsWritten {
  import opened Values
  import opened RegInfo

  /** The source's range guard, `rindx > nreg` means out of range. */
  predicate GuardPassesAsWritten(nreg: int, r: int) { !(r > nreg) }

  /** The guard lets through the index one past the last register (and every
      negative index), which the source then uses to index the record array. */
  lemma GuardAdmitsOnePastEnd(n: nat)
    ensures GuardPassesAsWritten(n, n) && !InRange(n, n)
    ensures GuardPassesAsWritten(n, -1) && !InRange(n, -1)
  {
  }

  /** reginfolist_write as written. The repair of an alias is itself a full
      write, so it first repairs the aliases of that alias, and so on. `depth`
      bounds this nesting (the source has none): a repair nested deeper than
      `depth` changes nothing. Indices are checked with the corrected range
      test so that only the nesting differs from RegInfo.WriteSpec. */
  function WriteAsWritten(s: seq<RegRecord>, n: nat, iindx: int, r: int, c: RegContents, k: int, depth: nat): (t: seq<RegRecord>)
    requires n <= |s|
    ensures |t| == |s|
    ensures InRange(n, r) ==> t[r] == RegRecord(c, k, 0, iindx, Nil, false)
    decreases depth, 1
  {
    if !InRange(n, r) then s
    else
      var u := if s[r].ndup then UndupAsWritten(s, n, r, s[r], 0, depth) else s;
      var w := u[r := u[r].(contents := c)];
      var w2 := if c == Register && InRange(n, k) then w[k := w[k].(ndup := true)] else w;
      w2[r := w2[r].(indx := k, nused := 0, iindx := iindx, typ := Nil, ndup := false)]
  }

  /** reginfolist_unduplicate as written, from register i on; src is the
      overwritten register as it was when the repair started. */
  function UndupAsWritten(s: seq<RegRecord>, n: nat, r: int, src: RegRecord, i: nat, depth: nat): (t: seq<RegRecord>)
    requires n <= |s| && InRange(n, r) && i <= n
    ensures |t| == |s|
    decreases depth, 0, n - i
  {
    if i == n || depth == 0 then s
    else if AliasOf(s, i, r) then
      var w := WriteAsWritten(s, n, s[i].iindx, i, src.contents, src.indx, depth - 1);
      var w2 := if src.typ != Nil then w[i := w[i].(typ := src.typ)] else w;
      var w3 := w2[i := w2[i].(nused := w2[r].nused)];
      UndupAsWritten(w3, n, r, src, i + 1, depth)
    else
      UndupAsWritten(s, n, r, src, i + 1, depth)
  }

  /** Three registers: r0 holds constant 5, r2 was written as a copy of r0,
      and r1 as a copy of r2. */
  function ChainOfCopies(): (s: seq<RegRecord>)
    ensures |s| == 3 && Tracked(s, 3)
  {
    [RegRecord(Constant, 5, 0, 0, Nil, true),
     RegRecord(Register, 2, 0, 2, Nil, false),
     RegRecord(Register, 0, 0, 1, Nil, true)]
  }

  /** Overwriting r0 with constant 7, as written: repairing r2 clears r2's
      flag and first re-points r1 at r0, the register being overwritten, whose
      own flag is then cleared. r1 is left claiming to copy r0, which now holds
      7 although r1 still holds 5, and nothing will repair r1 when r0 is
      overwritten again. */
  lemma StaleAliasAsWritten()
    ensures var t := WriteAsWritten(ChainOfCopies(), 3, 3, 0, Constant, 7, 3);
      t[1].contents == Register && t[1].indx == 0 &&
      t[0] == RegRecord(Constant, 7, 0, 3, Nil, false) &&
      !Tracked(t, 3)
  {
    var s := ChainOfCopies();
    var u := UndupAsWritten(s, 3, 0, s[0], 0, 3);
    var inner := WriteAsWritten(s, 3, 1, 2, Constant, 5, 2);
    assert inner[1] == RegRecord(Register, 0, 0, 2, Nil, false);
    var t := WriteAsWritten(s, 3, 3, 0, Constant, 7, 3);
    assert t[1].contents == Register && t[1].indx == 0 && !t[0].ndup;
  }

  /** The corrected write on the same input repairs only r2, which takes
      constant 5 and keeps its flag, so r1 still copies r2 and the copy
      relation stays tracked. */
  lemma ChainRepairedCorrectly()
    ensures var t := WriteSpec(ChainOfCopies(), 3, 3, 0, Constant, 7);
      t[1] == ChainOfCopies()[1] &&
      t[2] == RegRecord(Constant, 5, 0, 1, Nil, true) &&
      Tracked(t, 3)
  {
    var s := ChainOfCopies();
    WriteKeepsTracking(s, 3, [2, 0, 1], 3, 0, Constant, 7);
  }
}
