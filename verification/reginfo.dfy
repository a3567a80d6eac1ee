/** Per-register provenance tracking for the scan of one block (src/reginfo.c). */
module RegInfo {
  import opened Values

  /** Where the contents of a register came from. */
  datatype RegContents = Empty | Parameter | Register | Constant | Global | Upvalue | Value

  /** INSTRUCTIONINDX_EMPTY */
  const NoInstruction: int := -1

  /** What is known about one register: its provenance and the index that goes
      with it, how often it was read in this block, which instruction wrote it,
      a type hint, and whether another register has been written as a copy of
      it. `ndup` is a C `bool`, so the source's `ndup++` only ever sets it. */
  datatype RegRecord = RegRecord(contents: RegContents, indx: int, nused: int, iindx: int, typ: Val, ndup: bool)

  /** The record reginfo_init leaves behind. */
  const Blank: RegRecord := RegRecord(Empty, 0, 0, NoInstruction, Nil, false)

  /** A register index that the list answers for. The source tests
      `rindx > nreg`, which lets `rindx == nreg` through to an out-of-bounds
      access; every member below uses this corrected test instead. */
  predicate InRange(nreg: int, r: int) { 0 <= r < nreg }

  /** Register i holds a copy of register r, and is not r itself. */
  predicate AliasOf(s: seq<RegRecord>, i: int, r: int)
    requires 0 <= i < |s|
  {
    i != r && s[i].contents == Register && s[i].indx == r
  }

  /** Alias i after r is overwritten: it takes r's provenance, index, use count
      and type, and keeps its own writing instruction and duplicate flag. */
  function Repaired(s: seq<RegRecord>, i: int, r: int): RegRecord
    requires 0 <= i < |s| && 0 <= r < |s|
  {
    s[i].(contents := s[r].contents, indx := s[r].indx, nused := s[r].nused, typ := s[r].typ)
  }

  /** Some register below m is an alias of r. */
  predicate AliasBelow(s: seq<RegRecord>, m: nat, r: int)
    requires m <= |s|
  {
    exists a :: 0 <= a < m && AliasOf(s, a, r)
  }

  /** The register file after the alias repair of r has visited registers
      [0, m): each alias met so far is repaired, and when r itself was a copy
      of register k0, k0 is marked as duplicated once some alias has been
      repaired to point at it. */
  function UndupPrefix(s: seq<RegRecord>, n: nat, r: int, m: nat): (t: seq<RegRecord>)
    requires m <= n <= |s| && InRange(n, r)
    ensures |t| == |s|
  {
    seq(|s|, j requires 0 <= j < |s| =>
      var rec := if j < m && AliasOf(s, j, r) then Repaired(s, j, r) else s[j];
      rec.(ndup := rec.ndup || (s[r].contents == Register && j == s[r].indx && j < n && AliasBelow(s, m, r))))
  }

  /** One step of the repair loop: visiting register i repairs it if it is an
      alias of r, and then flags the register r copied. */
  lemma UndupStep(s: seq<RegRecord>, n: nat, r: int, i: nat)
    requires i < n <= |s| && InRange(n, r)
    ensures var p := UndupPrefix(s, n, r, i);
      UndupPrefix(s, n, r, i + 1) ==
        if !AliasOf(s, i, r) then p
        else
          var q := p[i := Repaired(s, i, r).(ndup := p[i].ndup)];
          if s[r].contents == Register && InRange(n, s[r].indx) then q[s[r].indx := q[s[r].indx].(ndup := true)] else q
  {
    assert AliasOf(s, i, r) ==> AliasBelow(s, i + 1, r);
    assert AliasBelow(s, i + 1, r) ==> AliasBelow(s, i, r) || AliasOf(s, i, r);
  }

  /** The register file after reginfolist_unduplicate(r). */
  function Unduplicated(s: seq<RegRecord>, n: nat, r: int): (t: seq<RegRecord>)
    requires n <= |s| && InRange(n, r)
    ensures |t| == |s|
    ensures forall i :: 0 <= i < n && AliasOf(s, i, r) ==> t[i] == Repaired(s, i, r).(ndup := t[i].ndup)
    ensures forall j :: 0 <= j < |s| && !(j < n && AliasOf(s, j, r)) ==> t[j] == s[j].(ndup := t[j].ndup)
    ensures forall j :: 0 <= j < |s| ==> (t[j].ndup <==> s[j].ndup || (s[r].contents == Register && j == s[r].indx && j < n && AliasBelow(s, n, r)))
  {
    UndupPrefix(s, n, r, n)
  }

  /** The register file after reginfolist_write(iindx, r, c, k). */
  function WriteSpec(s: seq<RegRecord>, n: nat, iindx: int, r: int, c: RegContents, k: int): (t: seq<RegRecord>)
    requires n <= |s|
    ensures |t| == |s|
    ensures !InRange(n, r) ==> t == s
    // the written register holds exactly what was written, and is no longer marked duplicated
    ensures InRange(n, r) ==> t[r] == RegRecord(c, k, 0, iindx, Nil, false)
    // writing a copy of k marks k as duplicated (for k == r the reset above wins)
    ensures InRange(n, r) && c == Register && InRange(n, k) && k != r ==> t[k].ndup
    // every alias of a duplicated r takes r's old provenance, index, type and use count
    ensures InRange(n, r) && s[r].ndup ==>
      forall i :: 0 <= i < n && AliasOf(s, i, r) ==>
        t[i].contents == s[r].contents && t[i].indx == s[r].indx && t[i].typ == s[r].typ &&
        t[i].nused == s[r].nused && t[i].iindx == s[i].iindx
    // no other register changes, apart from duplicate flags, which are only ever set
    ensures forall j :: 0 <= j < |s| && j != r && !(InRange(n, r) && s[r].ndup && j < n && AliasOf(s, j, r)) ==>
      t[j] == s[j].(ndup := t[j].ndup)
    ensures forall j :: 0 <= j < |s| && j != r && s[j].ndup ==> t[j].ndup
  {
    if !InRange(n, r) then s
    else
      var u := if s[r].ndup then Unduplicated(s, n, r) else s;
      var w := u[r := RegRecord(c, k, 0, iindx, Nil, false)];
      if c == Register && InRange(n, k) && k != r then w[k := w[k].(ndup := true)] else w
  }

  /** The register file after reginfolist_invalidate(c, ix). */
  function Invalidated(s: seq<RegRecord>, n: nat, c: RegContents, ix: int): (t: seq<RegRecord>)
    requires n <= |s|
    ensures |t| == |s|
    // afterwards no register in use holds (c, ix) any more, unless c was VALUE already
    ensures c != Value ==> forall j :: 0 <= j < n ==> !(t[j].contents == c && t[j].indx == ix)
    // a register changes only if it held (c, ix), and then only its provenance, which becomes VALUE
    ensures forall j :: 0 <= j < |s| ==>
      t[j] == (if j < n && s[j].contents == c && s[j].indx == ix then s[j].(contents := Value) else s[j])
  {
    seq(|s|, j requires 0 <= j < |s| =>
      if j < n && s[j].contents == c && s[j].indx == ix then s[j].(contents := Value) else s[j])
  }

  /** Every register that holds a copy of another register has that register
      marked as duplicated, so that overwriting it repairs the copy. */
  ghost predicate Tracked(s: seq<RegRecord>, n: nat)
    requires n <= |s|
  {
    forall i :: 0 <= i < n && s[i].contents == Register && s[i].indx != i ==>
      InRange(n, s[i].indx) && s[s[i].indx].ndup
  }

  /** The copy relation is acyclic, witnessed by a rank that grows along it. */
  ghost predicate Ranked(s: seq<RegRecord>, n: nat, rank: seq<nat>)
    requires n <= |s|
  {
    |rank| == n &&
    forall i :: 0 <= i < n && s[i].contents == Register ==>
      InRange(n, s[i].indx) && rank[i] < rank[s[i].indx]
  }

  /** The rank after a write to r: nothing points at r any more, so r moves to
      the bottom. */
  function Reranked(rank: seq<nat>, r: int): (rank': seq<nat>)
    ensures |rank'| == |rank|
  {
    seq(|rank|, j requires 0 <= j < |rank| => if j == r then 0 else rank[j] + 1)
  }

  /** Alias repair keeps the copy relation tracked and acyclic: after any
      write that does not make a register a copy of itself, every copy still
      points at a flagged register, nothing points at the overwritten one, and
      the relation stays acyclic. */
  lemma {:induction false} WriteKeepsTracking(s: seq<RegRecord>, n: nat, rank: seq<nat>, iindx: int, r: int, c: RegContents, k: int)
    requires n <= |s| && Tracked(s, n) && Ranked(s, n, rank) && InRange(n, r)
    requires c == Register ==> InRange(n, k) && k != r
    ensures var t := WriteSpec(s, n, iindx, r, c, k);
      Tracked(t, n) && Ranked(t, n, Reranked(rank, r)) &&
      forall j :: 0 <= j < n ==> !AliasOf(t, j, r)
  {
    var t := WriteSpec(s, n, iindx, r, c, k);
    var rank' := Reranked(rank, r);
    forall j | 0 <= j < n && AliasOf(s, j, r)
      ensures s[r].ndup && t[j].contents == s[r].contents && t[j].indx == s[r].indx
    {
      assert InRange(n, s[j].indx) && s[s[j].indx].ndup;
    }
    forall j | 0 <= j < n && t[j].contents == Register
      ensures InRange(n, t[j].indx) && rank'[j] < rank'[t[j].indx] && t[j].indx != r
      ensures t[j].indx != j ==> t[t[j].indx].ndup
    {
      if j == r {
        assert t[j].indx == k;
      } else if AliasOf(s, j, r) {
        // j now copies what r copied: r -> k0, and k0 is above r in the rank
        var k0 := s[r].indx;
        assert s[r].contents == Register && t[j].indx == k0;
        assert rank[j] < rank[r] < rank[k0];
        assert Unduplicated(s, n, r)[k0].ndup by { assert AliasBelow(s, n, r); }
      } else {
        assert t[j] == s[j].(ndup := t[j].ndup);
        var m := s[j].indx;
        assert rank[j] < rank[m];
      }
    }
  }

  /** Holds a list of register records; only the first `nreg` are in use. */
  class RegInfoList {
    var nreg: nat
    var rinfo: array<RegRecord>

    ghost predicate Valid()
      reads this
    {
      nreg <= rinfo.Length
    }

    /** reginfolist_init: room for n registers, all blank. */
    constructor Init(n: nat)
      ensures Valid() && nreg == n && fresh(rinfo)
      ensures forall i :: 0 <= i < n ==> rinfo[i] == Blank
      // every register then reads back as EMPTY, index 0, no writer, unused, untyped
      ensures forall i :: 0 <= i < n ==> ContentsOf(i) == Some((Empty, 0)) && SourceOf(i) == Some(NoInstruction)
      ensures forall i :: 0 <= i < n ==> CountUses(i) == 0 && TypeOf(i) == Nil
    {
      nreg := n;
      rinfo := new RegRecord[n](_ => Blank);
    }

    /** reginfolist_wipe: reuse the storage for n registers, all blank. */
    method Wipe(n: nat)
      requires n <= rinfo.Length
      modifies this, rinfo
      ensures Valid() && nreg == n && rinfo == old(rinfo)
      ensures forall i :: 0 <= i < n ==> rinfo[i] == Blank
      ensures forall i :: n <= i < rinfo.Length ==> rinfo[i] == old(rinfo[i])
      ensures forall i :: 0 <= i < n ==> ContentsOf(i) == Some((Empty, 0)) && SourceOf(i) == Some(NoInstruction)
      ensures forall i :: 0 <= i < n ==> CountUses(i) == 0 && TypeOf(i) == Nil
    {
      nreg := n;
      var i := 0;
      while i < n
        invariant 0 <= i <= n && nreg == n && rinfo == old(rinfo)
        invariant forall j :: 0 <= j < i ==> rinfo[j] == Blank
        invariant forall j :: i <= j < rinfo.Length ==> rinfo[j] == old(rinfo[j])
      {
        rinfo[i] := Blank;
        i := i + 1;
      }
    }

    /** reginfolist_copy: refuses (and changes nothing) when src tracks more
        registers than dest; otherwise dest's first src.nreg records become
        src's and the rest of dest is untouched. */
    static method Copy(src: RegInfoList, dest: RegInfoList) returns (ok: bool)
      requires src.Valid() && dest.Valid()
      modifies dest.rinfo
      ensures ok <==> src.nreg <= dest.nreg
      ensures !ok ==> dest.rinfo[..] == old(dest.rinfo[..])
      ensures ok ==> dest.rinfo[..src.nreg] == old(src.rinfo[..src.nreg])
      ensures ok ==> dest.rinfo[src.nreg..] == old(dest.rinfo[src.nreg..])
    {
      if src.nreg > dest.nreg { return false; }
      var i := 0;
      while i < src.nreg
        invariant 0 <= i <= src.nreg
        invariant forall j :: 0 <= j < i ==> dest.rinfo[j] == old(src.rinfo[j])
        invariant forall j :: i <= j < dest.rinfo.Length ==> dest.rinfo[j] == old(dest.rinfo[j])
        invariant forall j :: i <= j < src.rinfo.Length ==> src.rinfo[j] == old(src.rinfo[j])
      {
        dest.rinfo[i] := src.rinfo[i];
        i := i + 1;
      }
      return true;
    }

    /** reginfolist_write: record that instruction iindx wrote (c, k) to r,
        first repairing the registers that copied r. */
    method Write(iindx: int, r: int, c: RegContents, k: int)
      requires Valid()
      modifies rinfo
      ensures rinfo[..] == WriteSpec(old(rinfo[..]), nreg, iindx, r, c, k)
      // reading r back gives what was written
      ensures InRange(nreg, r) ==> ContentsOf(r) == Some((c, k)) && RegContentsOf(r) == c && SourceOf(r) == Some(iindx)
      ensures InRange(nreg, r) ==> CountUses(r) == 0 && TypeOf(r) == Nil
    {
      if !InRange(nreg, r) { return; }
      if rinfo[r].ndup { Unduplicate(r); }
      rinfo[r] := rinfo[r].(contents := c);
      if c == Register { Duplicate(k); }
      rinfo[r] := rinfo[r].(indx := k, nused := 0, iindx := iindx, typ := Nil, ndup := false);
    }

    /** reginfolist_settype: changes only the type hint of r. */
    method SetType(r: int, t: Val)
      requires Valid()
      modifies rinfo
      ensures rinfo[..] == if InRange(nreg, r) then old(rinfo[..])[r := old(rinfo[r]).(typ := t)] else old(rinfo[..])
      ensures TypeOf(r) == if InRange(nreg, r) then t else Nil
      ensures ContentsOf(r) == old(ContentsOf(r)) && SourceOf(r) == old(SourceOf(r)) && CountUses(r) == old(CountUses(r))
    {
      if !InRange(nreg, r) { return; }
      rinfo[r] := rinfo[r].(typ := t);
    }

    /** reginfolist_uses: counts one more read of r and changes nothing else. */
    method Uses(r: int)
      requires Valid()
      modifies rinfo
      ensures rinfo[..] == if InRange(nreg, r) then old(rinfo[..])[r := old(rinfo[r]).(nused := old(rinfo[r].nused) + 1)] else old(rinfo[..])
      ensures CountUses(r) == old(CountUses(r)) + (if InRange(nreg, r) then 1 else 0)
      ensures ContentsOf(r) == old(ContentsOf(r)) && SourceOf(r) == old(SourceOf(r)) && TypeOf(r) == old(TypeOf(r))
    {
      if !InRange(nreg, r) { return; }
      rinfo[r] := rinfo[r].(nused := rinfo[r].nused + 1);
    }

    /** reginfolist_duplicate: marks r as copied by another register. */
    method Duplicate(r: int)
      requires Valid()
      modifies rinfo
      ensures rinfo[..] == if InRange(nreg, r) then old(rinfo[..])[r := old(rinfo[r]).(ndup := true)] else old(rinfo[..])
    {
      if !InRange(nreg, r) { return; }
      rinfo[r] := rinfo[r].(ndup := true);
    }

    /** reginfolist_unduplicate: every register that copied r takes r's
        provenance, type and use count, keeping its own writing instruction. */
    method Unduplicate(r: int)
      requires Valid() && InRange(nreg, r)
      modifies rinfo
      ensures rinfo[..] == Unduplicated(old(rinfo[..]), nreg, r)
    {
      ghost var s := rinfo[..];
      var src := rinfo[r];
      var i := 0;
      while i < nreg
        invariant 0 <= i <= nreg
        invariant rinfo[..] == UndupPrefix(s, nreg, r, i)
      {
        UndupStep(s, nreg, r, i);
        if i != r && rinfo[i].contents == Register && rinfo[i].indx == r {
          rinfo[i] := rinfo[i].(contents := src.contents, indx := src.indx, nused := src.nused, typ := src.typ);
          if src.contents == Register { Duplicate(src.indx); }
        }
        i := i + 1;
      }
    }

    /** reginfolist_invalidate: registers holding (c, ix) now hold an unknown VALUE. */
    method Invalidate(c: RegContents, ix: int)
      requires Valid()
      modifies rinfo
      ensures rinfo[..] == Invalidated(old(rinfo[..]), nreg, c, ix)
      // what held (c, ix) now reads back as VALUE with its index kept, and nothing reads as (c, ix) any more
      ensures forall j :: 0 <= j < nreg && old(rinfo[j]).contents == c && old(rinfo[j]).indx == ix ==> ContentsOf(j) == Some((Value, ix))
      ensures c != Value ==> forall j :: ContentsOf(j) != Some((c, ix))
    {
      ghost var s := rinfo[..];
      var i := 0;
      while i < nreg
        invariant 0 <= i <= nreg
        invariant forall j :: 0 <= j < rinfo.Length ==>
          rinfo[j] == (if j < i && s[j].contents == c && s[j].indx == ix then s[j].(contents := Value) else s[j])
      {
        if rinfo[i].contents == c && rinfo[i].indx == ix {
          rinfo[i] := rinfo[i].(contents := Value);
        }
        i := i + 1;
      }
    }

    /** reginfolist_type: nil for a register out of range. */
    function TypeOf(r: int): (t: Val)
      requires Valid()
      reads this, rinfo
      ensures t == (if InRange(nreg, r) then rinfo[r].typ else Nil)
    {
      if InRange(nreg, r) then rinfo[r].typ else Nil
    }

    /** reginfolist_contents: the provenance and index of r, or nothing
        (the source's `false`) out of range. */
    function ContentsOf(r: int): (res: Option<(RegContents, int)>)
      requires Valid()
      reads this, rinfo
      ensures res.Some? <==> InRange(nreg, r)
      ensures res.Some? ==> res.value == (rinfo[r].contents, rinfo[r].indx)
    {
      if InRange(nreg, r) then Some((rinfo[r].contents, rinfo[r].indx)) else None
    }

    /** reginfolist_regcontents: EMPTY for a register out of range. */
    function RegContentsOf(r: int): (res: RegContents)
      requires Valid()
      reads this, rinfo
      ensures res == (if InRange(nreg, r) then rinfo[r].contents else Empty)
    {
      if InRange(nreg, r) then rinfo[r].contents else Empty
    }

    /** reginfolist_source: the instruction that last wrote r, or nothing out of range. */
    function SourceOf(r: int): (res: Option<int>)
      requires Valid()
      reads this, rinfo
      ensures res.Some? <==> InRange(nreg, r)
      ensures res.Some? ==> res.value == rinfo[r].iindx
    {
      if InRange(nreg, r) then Some(rinfo[r].iindx) else None
    }

    /** reginfolist_countuses: zero for a register out of range. */
    function CountUses(r: int): (res: int)
      requires Valid()
      reads this, rinfo
      ensures res == (if InRange(nreg, r) then rinfo[r].nused else 0)
    {
      if InRange(nreg, r) then rinfo[r].nused else 0
    }
  }
}
