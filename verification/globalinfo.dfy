/** What the optimizer learns about global variables (src/info.c). */
module GlobalInfo {
  import opened Values

  /** Where the contents of a global came from. */
  datatype GlobalContents = GlobalEmpty | GlobalConstant | GlobalValue

  /** What is known about one global: its provenance, the constant index that
      goes with GLOBAL_CONSTANT, a type hint and how often it was read. */
  datatype GlblInfo = GlblInfo(contents: GlobalContents, indx: int, typ: Val, nread: int)

  /** The record globalinfo_init leaves behind. */
  const BlankGlobal: GlblInfo := GlblInfo(GlobalEmpty, 0, Nil, 0)

  /** A store into a global, as the two write operations distinguish them. */
  datatype GlobalWrite = StoreConstant(k: int) | StoreValue

  /** How much has been stored into a global: nothing, one constant, or
      anything else. */
  function Level(c: GlobalContents): nat
  {
    match c
    case GlobalEmpty => 0
    case GlobalConstant => 1
    case GlobalValue => 2
  }

  /** One store applied to a global's record. A constant stored into an
      empty global is remembered with its index; any other store leaves an
      unknown value. Only the provenance (and, for the first constant, the
      index) changes. */
  function Stored(info: GlblInfo, w: GlobalWrite): (r: GlblInfo)
    // each store moves strictly up the lattice until it reaches VALUE, where it stays
    ensures Level(r.contents) >= Level(info.contents)
    ensures info.contents != GlobalValue ==> Level(r.contents) > Level(info.contents)
    ensures r.contents == GlobalConstant <==> info.contents == GlobalEmpty && w.StoreConstant?
    ensures r.contents == GlobalConstant ==> r.indx == w.k
    ensures r.contents != GlobalConstant ==> r.indx == info.indx
    ensures r.typ == info.typ && r.nread == info.nread
  {
    match w
    case StoreConstant(k) =>
      if info.contents == GlobalEmpty then info.(contents := GlobalConstant, indx := k)
      else info.(contents := GlobalValue)
    case StoreValue => info.(contents := GlobalValue)
  }

  /** A run of stores, first to last. */
  function StoredAll(info: GlblInfo, ws: seq<GlobalWrite>): GlblInfo
    decreases |ws|
  {
    if |ws| == 0 then info else StoredAll(Stored(info, ws[0]), ws[1..])
  }

  /** Starting from a fresh global, a run of stores leaves it empty exactly
      when there were none, constant exactly when the only store was a
      constant (with that constant's index), and an unknown value otherwise:
      a second store makes a global VALUE even when it stores the same
      constant again. */
  lemma {:induction false} StoresFromBlank(ws: seq<GlobalWrite>)
    ensures var r := StoredAll(BlankGlobal, ws);
      (r.contents == GlobalEmpty <==> |ws| == 0) &&
      (r.contents == GlobalConstant <==> |ws| == 1 && ws[0].StoreConstant?) &&
      (r.contents == GlobalConstant ==> r.indx == ws[0].k) &&
      (r.contents == GlobalValue <==> |ws| >= 2 || (|ws| == 1 && ws[0] == StoreValue))
  {
    if |ws| >= 2 {
      ValueAbsorbs(Stored(Stored(BlankGlobal, ws[0]), ws[1]), ws[2..]);
      assert ws[1..][1..] == ws[2..];
    } else if |ws| == 1 {
      assert StoredAll(BlankGlobal, ws) == Stored(BlankGlobal, ws[0]);
    }
  }

  /** Once a global holds an unknown value, no store changes that. */
  lemma {:induction false} ValueAbsorbs(info: GlblInfo, ws: seq<GlobalWrite>)
    requires info.contents == GlobalValue
    ensures StoredAll(info, ws).contents == GlobalValue
    ensures StoredAll(info, ws).indx == info.indx
    decreases |ws|
  {
    if |ws| > 0 {
      ValueAbsorbs(Stored(info, ws[0]), ws[1..]);
    }
  }

  /** The optimizer's table of globals. */
  class GlobalInfoList {
    var nglobals: nat
    var list: array<GlblInfo>

    ghost predicate Valid()
      reads this
    {
      nglobals == list.Length
    }

    /** globalinfolist_init: n blank globals. */
    constructor Init(n: nat)
      ensures Valid() && nglobals == n && fresh(list)
      ensures forall g :: 0 <= g < n ==> list[g] == BlankGlobal
      ensures forall g :: 0 <= g < n ==> IsConstant(g) == None
    {
      var a := new GlblInfo[n];
      var i := 0;
      while i < n
        invariant 0 <= i <= n
        invariant forall g :: 0 <= g < i ==> a[g] == BlankGlobal
      {
        a[i] := BlankGlobal;
        i := i + 1;
      }
      nglobals := n;
      list := a;
    }

    /** globalinfolist_clear: no globals left. */
    method Clear()
      modifies this
      ensures Valid() && nglobals == 0
    {
      list := new GlblInfo[0];
      nglobals := 0;
    }

    /** globalinfolist_read: counts one more read of g, nothing else changes. */
    method Read(g: nat)
      requires Valid() && g < nglobals
      modifies list
      ensures list[..] == old(list[..])[g := old(list[g]).(nread := old(list[g].nread) + 1)]
      ensures IsConstant(g) == old(IsConstant(g))
    {
      list[g] := list[g].(nread := list[g].nread + 1);
    }

    /** globalinfolist_writevalue */
    method WriteValue(g: nat)
      requires Valid() && g < nglobals
      modifies list
      ensures list[..] == old(list[..])[g := Stored(old(list[g]), StoreValue)]
      ensures IsConstant(g) == None
    {
      list[g] := list[g].(contents := GlobalValue);
    }

    /** globalinfolist_writeconstant */
    method WriteConstant(g: nat, k: int)
      requires Valid() && g < nglobals
      modifies list
      ensures list[..] == old(list[..])[g := Stored(old(list[g]), StoreConstant(k))]
      // a constant reads back only from a global nothing was stored into before
      ensures IsConstant(g) == if old(list[g].contents) == GlobalEmpty then Some(k) else None
    {
      if list[g].contents == GlobalEmpty {
        list[g] := list[g].(contents := GlobalConstant, indx := k);
      } else {
        WriteValue(g);
      }
    }

    /** globalinfolist_isconstant: the constant index of g when g holds a
        constant, nothing otherwise. */
    function IsConstant(g: nat): (k: Option<int>)
      requires Valid() && g < nglobals
      reads this, list
      ensures k.Some? <==> list[g].contents == GlobalConstant
      ensures k.Some? ==> k.value == list[g].indx
    {
      if list[g].contents == GlobalConstant then Some(list[g].indx) else None
    }
  }
}
