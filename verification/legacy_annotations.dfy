/** How the superseded optimizer (old/optimizecheck.c) carries the debug
    annotations of a function over to its compacted code: each element
    record says how many consecutive instructions come from one source
    position, and those counts must shrink by the NOPs that compaction
    deletes. */
module LegacyAnnotations {
  import opened Bytecode
  import Layout

  /** A debug annotation: an element record covering ninstr instructions
      from source line and position, or any other record (function, class,
      module, register names), whose contents are not inspected. */
  datatype Annotation = Element(ninstr: nat, line: int, posn: int) | Other(kind: nat)

  /** The annotation cursor: the current record a, the index of the first
      instruction it covers, and the offset of the target instruction in it. */
  datatype Cursor = Cursor(a: nat, aindx: int, aoffset: int)

  /** The cursor is at a record or at the end, and its offset lies within
      the element it is at. */
  predicate CursorOk(anns: seq<Annotation>, c: Cursor)
  {
    c.a <= |anns| && 0 <= c.aoffset &&
    (c.a < |anns| && anns[c.a].Element? ==> c.aoffset <= anns[c.a].ninstr)
  }

  /** optimize_annotationadvance: past the current record. */
  function Advanced(anns: seq<Annotation>, c: Cursor): (r: Cursor)
    requires c.a < |anns|
    ensures CursorOk(anns, r)
  {
    Cursor(c.a + 1, c.aindx + (if anns[c.a].Element? then anns[c.a].ninstr else 0), 0)
  }

  /** The number of instructions the element records among the first a
      records cover. */
  function StartOf(anns: seq<Annotation>, a: nat): int
    requires a <= |anns|
  {
    if a == 0 then 0
    else StartOf(anns, a - 1) + (if anns[a - 1].Element? then anns[a - 1].ninstr else 0)
  }

  /** The search loop of optimize_annotationmoveto, from cursor c, with
      `last` the last element record seen. It stops at the element that
      covers instruction ix; when ix is that element's first instruction it
      backs up to just after the last element seen, so that the records in
      between are copied with the element. */
  function Scan(anns: seq<Annotation>, c: Cursor, ix: int, last: nat): (r: Cursor)
    requires CursorOk(anns, c) && c.aindx <= ix
    ensures CursorOk(anns, r) && r.aindx <= ix
    ensures r.a < |anns| ==> r.aoffset == ix - r.aindx
    decreases |anns| - c.a
  {
    if c.a == |anns| then c
    else if anns[c.a].Element? then
      if c.aindx + anns[c.a].ninstr > ix then
        var off := ix - c.aindx;
        Cursor(if off == 0 && last < c.a then last + 1 else c.a, c.aindx, off)
      else Scan(anns, Advanced(anns, c), ix, c.a)
    else Scan(anns, Advanced(anns, c), ix, last)
  }

  /** optimize_annotationmoveto: back to the start when ix lies before the
      cursor, then the search. */
  function MoveToSpec(anns: seq<Annotation>, c: Cursor, ix: nat): (r: Cursor)
    requires CursorOk(anns, c)
    ensures CursorOk(anns, r)
  {
    Scan(anns, if ix < c.aindx then Cursor(0, 0, 0) else c, ix, 0)
  }

  /** From a cursor whose index is where its record starts, the search
      either runs off the end, when the element records cover fewer than
      ix + 1 instructions, or stops with aindx the start of an element f that
      covers ix and aoffset the distance of ix into it. */
  lemma {:induction false} ScanLands(anns: seq<Annotation>, c: Cursor, ix: int, last: nat) returns (f: nat)
    requires CursorOk(anns, c) && c.aindx <= ix && c.aindx == StartOf(anns, c.a)
    ensures var r := Scan(anns, c, ix, last);
      (r.a == |anns| ==> ix >= StartOf(anns, |anns|)) &&
      (r.a < |anns| ==> r.a <= f < |anns| && anns[f].Element? && StartOf(anns, f) == r.aindx &&
                        r.aindx <= ix < r.aindx + anns[f].ninstr)
    decreases |anns| - c.a
  {
    f := 0;
    if c.a < |anns| {
      if anns[c.a].Element? && c.aindx + anns[c.a].ninstr > ix {
        f := c.a;
      } else {
        f := ScanLands(anns, Advanced(anns, c), ix, if anns[c.a].Element? then c.a else last);
      }
    }
  }

  /** Restarting for the first instruction when the first record is not an
      element: the record just before the first element is the one the
      search backs up to, so record 0 is skipped and never copied. */
  lemma RestartSkipsFirstRecord()
    ensures MoveToSpec([Other(0), Other(1), Element(3, 1, 0)], Cursor(0, 0, 0), 0) == Cursor(1, 0, 0)
  {
  }

  /** What optimize_annotationcopyforblock adds, and where it leaves the
      cursor and the instruction index. */
  datatype Copied = Copied(emitted: seq<Annotation>, cursor: Cursor, iindx: int)

  /** The number of NOPs in s. */
  function NopCount(s: seq<Instr>): (n: nat)
    ensures n <= |s|
    decreases |s|
  {
    if |s| == 0 then 0 else NopCount(s[..|s| - 1]) + (if s[|s| - 1].op == Nop then 1 else 0)
  }

  /** NOPs in two stretches of code add up. */
  lemma {:induction false} NopCountAppend(s: seq<Instr>, u: seq<Instr>)
    ensures NopCount(s + u) == NopCount(s) + NopCount(u)
    decreases |u|
  {
    if |u| > 0 {
      assert (s + u)[..|s + u| - 1] == s + u[..|u| - 1];
      NopCountAppend(s, u[..|u| - 1]);
    } else {
      assert s + u == s;
    }
  }

  /** What layout keeps of a stretch of code is everything but its NOPs. */
  lemma {:induction false} NopCountMatchesLayout(s: seq<Instr>)
    ensures |Layout.NonNops(s)| == |s| - NopCount(s)
    decreases |s|
  {
    if |s| > 0 {
      NopCountMatchesLayout(s[..|s| - 1]);
    }
  }

  /** The number of NOPs among the k instructions of code from lo. */
  function NopsIn(code: seq<Instr>, lo: int, k: int): int
    requires k > 0 ==> 0 <= lo && lo + k <= |code|
  {
    if k <= 0 then 0 else NopCount(code[lo..lo + k])
  }

  /** How many instructions of the element at the cursor the copy loop
      handles from instruction iindx: those left in both the element and the
      block that ends at `end`. */
  function Take(anns: seq<Annotation>, c: Cursor, iindx: int, end: int): int
    requires c.a < |anns| && anns[c.a].Element?
  {
    var remBlock := end - iindx + 1;
    var remAnn := anns[c.a].ninstr - c.aoffset;
    if remAnn < remBlock then remAnn else remBlock
  }

  /** The element reaches the end of the block, so the copy loop stops at it. */
  predicate Finishes(anns: seq<Annotation>, c: Cursor, iindx: int, end: int)
    requires c.a < |anns| && anns[c.a].Element?
  {
    end - iindx + 1 <= anns[c.a].ninstr - c.aoffset
  }

  /** The record written for the element at the cursor: its handled
      instructions less the NOPs among them, or nothing when that leaves
      none. */
  function Cut(anns: seq<Annotation>, code: seq<Instr>, c: Cursor, iindx: int, end: int): seq<Annotation>
    requires CursorOk(anns, c) && c.a < |anns| && anns[c.a].Element? && 0 <= iindx <= end < |code|
  {
    var k := Take(anns, c, iindx, end);
    var nnops := NopsIn(code, iindx, k);
    if k > nnops then [Element(k - nnops, anns[c.a].line, anns[c.a].posn)] else []
  }

  /** The copy loop of optimize_annotationcopyforblock for the block that
      ends at instruction `end`, from cursor c at instruction iindx. An
      element record is cut to the instructions left in both the element
      and the block, less the NOPs among them, and dropped when none is
      left; other records are copied as they are. The loop ends at the
      element that reaches the block's end, without moving past it. */
  function CopySpec(anns: seq<Annotation>, code: seq<Instr>, c: Cursor, iindx: int, end: int): (r: Copied)
    requires CursorOk(anns, c) && 0 <= iindx <= end < |code|
    ensures CursorOk(anns, r.cursor) && c.a <= r.cursor.a
    ensures iindx <= r.iindx <= end + 1
    ensures r.cursor.a < |anns| ==> r.iindx == end + 1
    decreases |anns| - c.a
  {
    if c.a == |anns| then Copied([], c, iindx)
    else if anns[c.a].Element? then
      var k := Take(anns, c, iindx, end);
      var e := Cut(anns, code, c, iindx, end);
      if Finishes(anns, c, iindx, end) then Copied(e, c, iindx + k)
      else
        var rest := CopySpec(anns, code, Advanced(anns, c), iindx + k, end);
        Copied(e + rest.emitted, rest.cursor, rest.iindx)
    else
      var rest := CopySpec(anns, code, Advanced(anns, c), iindx, end);
      Copied([anns[c.a]] + rest.emitted, rest.cursor, rest.iindx)
  }

  /** One step of the copy loop at an element record. */
  lemma CopySpecAtElement(anns: seq<Annotation>, code: seq<Instr>, c: Cursor, iindx: int, end: int)
    requires CursorOk(anns, c) && c.a < |anns| && anns[c.a].Element? && 0 <= iindx <= end < |code|
    ensures Finishes(anns, c, iindx, end) ==>
      CopySpec(anns, code, c, iindx, end) == Copied(Cut(anns, code, c, iindx, end), c, iindx + Take(anns, c, iindx, end))
    ensures !Finishes(anns, c, iindx, end) ==>
      iindx <= iindx + Take(anns, c, iindx, end) <= end &&
      CopySpec(anns, code, c, iindx, end) ==
        Copied(Cut(anns, code, c, iindx, end) + CopySpec(anns, code, Advanced(anns, c), iindx + Take(anns, c, iindx, end), end).emitted,
               CopySpec(anns, code, Advanced(anns, c), iindx + Take(anns, c, iindx, end), end).cursor,
               CopySpec(anns, code, Advanced(anns, c), iindx + Take(anns, c, iindx, end), end).iindx)
  {
  }

  /** One step of the copy loop at a record that is not an element. */
  lemma CopySpecAtOther(anns: seq<Annotation>, code: seq<Instr>, c: Cursor, iindx: int, end: int)
    requires CursorOk(anns, c) && c.a < |anns| && !anns[c.a].Element? && 0 <= iindx <= end < |code|
    ensures CopySpec(anns, code, c, iindx, end) ==
      Copied([anns[c.a]] + CopySpec(anns, code, Advanced(anns, c), iindx, end).emitted,
             CopySpec(anns, code, Advanced(anns, c), iindx, end).cursor,
             CopySpec(anns, code, Advanced(anns, c), iindx, end).iindx)
  {
  }

  /** The instructions the element records of s cover. */
  function ElementTotal(s: seq<Annotation>): int
  {
    if |s| == 0 then 0 else (if s[0].Element? then s[0].ninstr else 0) + ElementTotal(s[1..])
  }

  /** The records of s that are not elements, in order. */
  function NonElements(s: seq<Annotation>): seq<Annotation>
  {
    if |s| == 0 then [] else (if s[0].Element? then [] else [s[0]]) + NonElements(s[1..])
  }

  /** No element record of s covers zero instructions. */
  predicate NoEmptyElements(s: seq<Annotation>)
  {
    forall j :: 0 <= j < |s| && s[j].Element? ==> s[j].ninstr > 0
  }

  /** Joining two runs of records without empty elements gives none. */
  lemma NoEmptyConcat(e: seq<Annotation>, t: seq<Annotation>)
    requires NoEmptyElements(e) && NoEmptyElements(t)
    ensures NoEmptyElements(e + t)
  {
    forall j | 0 <= j < |e + t| && (e + t)[j].Element?
      ensures (e + t)[j].ninstr > 0
    {
      if j >= |e| {
        assert (e + t)[j] == t[j - |e|];
      }
    }
  }

  /** The records r.emitted, written while the cursor moved from c to
      r.cursor and the instruction index from iindx to r.iindx, cover exactly
      the instructions passed that are not NOPs, none of them is an empty
      element, and the other records among them are the ones passed, in
      order. */
  predicate Accounts(anns: seq<Annotation>, code: seq<Instr>, c: Cursor, iindx: int, r: Copied)
    requires 0 <= iindx <= r.iindx <= |code| && c.a <= r.cursor.a <= |anns|
  {
    ElementTotal(r.emitted) == r.iindx - iindx - NopCount(code[iindx..r.iindx]) &&
    NoEmptyElements(r.emitted) &&
    NonElements(r.emitted) == NonElements(anns[c.a..r.cursor.a])
  }

  /** The record cut from one element accounts for the instructions it
      handled. */
  lemma CutAccounts(anns: seq<Annotation>, code: seq<Instr>, c: Cursor, iindx: int, end: int)
    requires CursorOk(anns, c) && c.a < |anns| && anns[c.a].Element? && 0 <= iindx <= end < |code|
    ensures 0 <= Take(anns, c, iindx, end) <= end + 1 - iindx
    ensures Accounts(anns, code, c, iindx, Copied(Cut(anns, code, c, iindx, end), c, iindx + Take(anns, c, iindx, end)))
    ensures |Cut(anns, code, c, iindx, end)| <= 1 && NonElements(Cut(anns, code, c, iindx, end)) == []
  {
    var k := Take(anns, c, iindx, end);
    assert NopsIn(code, iindx, k) == NopCount(code[iindx..iindx + k]) by {
      if k == 0 {
        assert code[iindx..iindx + k] == [];
      }
    }
    var e := Cut(anns, code, c, iindx, end);
    if |e| == 1 {
      assert e[1..] == [];
      assert ElementTotal(e) == k - NopCount(code[iindx..iindx + k]);
    } else {
      assert e == [];
      assert ElementTotal(e) == k - NopCount(code[iindx..iindx + k]);
    }
    assert NoEmptyElements(e);
    assert NonElements(e) == NonElements(anns[c.a..c.a]);
  }

  /** Element totals add up over two consecutive stretches of code. */
  lemma TotalsPrepend(code: seq<Instr>, iindx: int, mid: int, hi: int, e: seq<Annotation>, t: seq<Annotation>)
    requires 0 <= iindx <= mid <= hi <= |code| && |e| <= 1
    requires ElementTotal(e) == mid - iindx - NopCount(code[iindx..mid])
    requires ElementTotal(t) == hi - mid - NopCount(code[mid..hi])
    ensures ElementTotal(e + t) == hi - iindx - NopCount(code[iindx..hi])
  {
    ConcatTotals(e, t);
    NopCountAppend(code[iindx..mid], code[mid..hi]);
    assert code[iindx..mid] + code[mid..hi] == code[iindx..hi];
  }

  /** The other records add up over a record placed in front. */
  lemma OthersPrepend(anns: seq<Annotation>, lo: nat, hi: nat, e: seq<Annotation>, t: seq<Annotation>)
    requires lo < hi <= |anns| && |e| <= 1
    requires NonElements(e) == NonElements([anns[lo]])
    requires NonElements(t) == NonElements(anns[lo + 1..hi])
    ensures NonElements(e + t) == NonElements(anns[lo..hi])
  {
    ConcatTotals(e, t);
    assert anns[lo..hi] == [anns[lo]] + anns[lo + 1..hi];
    ConcatTotals([anns[lo]], anns[lo + 1..hi]);
  }

  /** Records written for the record at the cursor, followed by what the
      rest of the loop writes, account for both stretches together. */
  lemma AccountsPrepend(anns: seq<Annotation>, code: seq<Instr>, c: Cursor, iindx: int, mid: int, e: seq<Annotation>, rest: Copied)
    requires c.a < |anns| && 0 <= iindx <= mid <= rest.iindx <= |code| && c.a + 1 <= rest.cursor.a <= |anns|
    requires |e| <= 1 && NonElements(e) == NonElements([anns[c.a]])
    requires ElementTotal(e) == mid - iindx - NopCount(code[iindx..mid])
    requires NoEmptyElements(e)
    requires Accounts(anns, code, Advanced(anns, c), mid, rest)
    ensures Accounts(anns, code, c, iindx, Copied(e + rest.emitted, rest.cursor, rest.iindx))
  {
    var all := e + rest.emitted;
    assert ElementTotal(all) == rest.iindx - iindx - NopCount(code[iindx..rest.iindx]) by {
      TotalsPrepend(code, iindx, mid, rest.iindx, e, rest.emitted);
    }
    assert NonElements(all) == NonElements(anns[c.a..rest.cursor.a]) by {
      OthersPrepend(anns, c.a, rest.cursor.a, e, rest.emitted);
    }
    assert NoEmptyElements(all) by {
      NoEmptyConcat(e, rest.emitted);
    }
  }

  /** The copy loop accounts for everything it writes. */
  lemma {:induction false} CopyAccounts(anns: seq<Annotation>, code: seq<Instr>, c: Cursor, iindx: int, end: int)
    requires CursorOk(anns, c) && 0 <= iindx <= end < |code|
    ensures Accounts(anns, code, c, iindx, CopySpec(anns, code, c, iindx, end))
    decreases |anns| - c.a
  {
    if c.a == |anns| {
      assert code[iindx..iindx] == [];
      assert anns[c.a..c.a] == [];
    } else if anns[c.a].Element? {
      CutAccounts(anns, code, c, iindx, end);
      if !Finishes(anns, c, iindx, end) {
        var k := Take(anns, c, iindx, end);
        var e := Cut(anns, code, c, iindx, end);
        var rest := CopySpec(anns, code, Advanced(anns, c), iindx + k, end);
        CopyAccounts(anns, code, Advanced(anns, c), iindx + k, end);
        assert NonElements([anns[c.a]]) == [] by {
          assert [anns[c.a]][1..] == [];
        }
        AccountsPrepend(anns, code, c, iindx, iindx + k, e, rest);
        CopySpecAtElement(anns, code, c, iindx, end);
      }
    } else {
      var rest := CopySpec(anns, code, Advanced(anns, c), iindx, end);
      CopyAccounts(anns, code, Advanced(anns, c), iindx, end);
      assert ElementTotal([anns[c.a]]) == 0 by {
        assert [anns[c.a]][1..] == [];
      }
      assert code[iindx..iindx] == [];
      AccountsPrepend(anns, code, c, iindx, iindx, [anns[c.a]], rest);
      CopySpecAtOther(anns, code, c, iindx, end);
    }
  }

  /** Totals and the other records distribute over a record placed in front. */
  lemma ConcatTotals(e: seq<Annotation>, t: seq<Annotation>)
    requires |e| <= 1
    ensures ElementTotal(e + t) == ElementTotal(e) + ElementTotal(t)
    ensures NonElements(e + t) == NonElements(e) + NonElements(t)
  {
    if |e| == 1 {
      assert (e + t)[1..] == t;
    } else {
      assert e + t == t;
    }
  }

  /** When the annotations reach past the block, the element records copied
      for it cover exactly the instructions that layout keeps of it. */
  lemma CopyMatchesLayout(anns: seq<Annotation>, code: seq<Instr>, c: Cursor, b: Layout.Block)
    requires CursorOk(anns, c) && Layout.WellFormed(code, b)
    requires CopySpec(anns, code, c, b.start, b.end).cursor.a < |anns|
    ensures ElementTotal(CopySpec(anns, code, c, b.start, b.end).emitted) == |Layout.Body(code, b)|
  {
    var r := CopySpec(anns, code, c, b.start, b.end);
    CopyAccounts(anns, code, c, b.start, b.end);
    AccountedBlock(anns, code, c, b, r);
  }

  /** Records that account for a whole block cover what layout keeps of it. */
  lemma AccountedBlock(anns: seq<Annotation>, code: seq<Instr>, c: Cursor, b: Layout.Block, r: Copied)
    requires Layout.WellFormed(code, b) && r.iindx == b.end + 1 && c.a <= r.cursor.a <= |anns|
    requires Accounts(anns, code, c, b.start, r)
    ensures ElementTotal(r.emitted) == |Layout.Body(code, b)|
  {
    NopCountMatchesLayout(code[b.start..b.end + 1]);
  }

  /** The optimizer's annotation state: the annotations of the code being
      optimized, the code itself (what optimize_fetchinstructionat reads),
      the cursor, and the annotations written so far. */
  class AnnotationFixer {
    const anns: seq<Annotation>
    const code: seq<Instr>
    var a: nat
    var aindx: int
    var aoffset: int
    var aout: seq<Annotation>

    function Cur(): Cursor
      reads this
    {
      Cursor(a, aindx, aoffset)
    }

    ghost predicate Valid()
      reads this
    {
      CursorOk(anns, Cur())
    }

    constructor Init(anns: seq<Annotation>, code: seq<Instr>)
      ensures this.anns == anns && this.code == code
      ensures Cur() == Cursor(0, 0, 0) && aout == [] && Valid()
    {
      this.anns := anns;
      this.code := code;
      a, aindx, aoffset := 0, 0, 0;
      aout := [];
    }

    /** optimize_restartannotation */
    method Restart()
      modifies this`a, this`aindx, this`aoffset
      ensures Cur() == Cursor(0, 0, 0) && Valid()
    {
      a, aindx, aoffset := 0, 0, 0;
    }

    /** optimize_annotationadvance */
    method Advance()
      requires a < |anns|
      modifies this`a, this`aindx, this`aoffset
      ensures Cur() == Advanced(anns, old(Cur())) && Valid()
    {
      aoffset := 0;
      if anns[a].Element? {
        aindx := aindx + anns[a].ninstr;
      }
      a := a + 1;
    }

    /** optimize_annotationmoveto */
    method MoveTo(ix: nat)
      requires Valid()
      modifies this`a, this`aindx, this`aoffset
      ensures Valid() && Cur() == MoveToSpec(anns, old(Cur()), ix)
    {
      var lastelement: nat := 0;
      if ix < aindx {
        Restart();
      }
      ghost var c0 := Cur();
      while a < |anns|
        invariant Valid() && aindx <= ix
        invariant Scan(anns, c0, ix, 0) == Scan(anns, Cur(), ix, lastelement)
        decreases |anns| - a
      {
        if anns[a].Element? {
          if aindx + anns[a].ninstr > ix {
            aoffset := ix - aindx;
            if aoffset == 0 && lastelement < a {
              a := lastelement + 1;
            }
            return;
          }
          lastelement := a;
        }
        Advance();
      }
    }

    /** The NOP count of optimize_annotationcopyforblock: how many of the k
        instructions from lo are NOPs. */
    method CountNops(lo: int, k: int) returns (nnops: int)
      requires k > 0 ==> 0 <= lo && lo + k <= |code|
      ensures nnops == NopsIn(code, lo, k)
    {
      nnops := 0;
      if k <= 0 {
        return;
      }
      var i := 0;
      while i < k
        invariant 0 <= i <= k
        invariant nnops == NopCount(code[lo..lo + i])
      {
        assert code[lo..lo + i + 1][..i] == code[lo..lo + i];
        if code[lo + i].op == Nop {
          nnops := nnops + 1;
        }
        i := i + 1;
      }
    }

    /** One pass of the copy loop of optimize_annotationcopyforblock at an
        element record: writes its cut record and reports whether the block
        is done. */
    method CopyElement(iindx: int, end: int) returns (next: int, done: bool)
      requires Valid() && a < |anns| && anns[a].Element? && 0 <= iindx <= end < |code|
      modifies this`a, this`aindx, this`aoffset, this`aout
      ensures Valid()
      ensures done == Finishes(anns, old(Cur()), iindx, end)
      ensures next == iindx + Take(anns, old(Cur()), iindx, end)
      ensures aout == old(aout) + Cut(anns, code, old(Cur()), iindx, end)
      ensures Cur() == if done then old(Cur()) else Advanced(anns, old(Cur()))
    {
      var ann := anns[a];
      var remBlock := end - iindx + 1;
      var remAnn := ann.ninstr - aoffset;
      var ninstr := if remAnn < remBlock then remAnn else remBlock;
      var nnops := CountNops(iindx, ninstr);
      if ninstr > nnops {
        aout := aout + [Element(ninstr - nnops, ann.line, ann.posn)];
      }
      next := iindx + ninstr;
      done := remBlock <= remAnn;
      if !done {
        Advance();
      }
    }

    /** One pass of the copy loop of optimize_annotationcopyforblock, at the
        record under the cursor: the loop either stops with everything the
        copy writes for the block, or moves on to the next record with the
        rest of the copy still to come. */
    method CopyStep(iindx: int, end: int) returns (next: int, done: bool)
      requires Valid() && a < |anns| && 0 <= iindx <= end < |code|
      modifies this`a, this`aindx, this`aoffset, this`aout
      ensures Valid()
      ensures done ==> aout == old(aout) + CopySpec(anns, code, old(Cur()), iindx, end).emitted
      ensures done ==> Cur() == CopySpec(anns, code, old(Cur()), iindx, end).cursor
      ensures !done ==> a == old(a) + 1 && iindx <= next <= end
      ensures !done ==> old(aout) + CopySpec(anns, code, old(Cur()), iindx, end).emitted ==
                        aout + CopySpec(anns, code, Cur(), next, end).emitted
      ensures !done ==> CopySpec(anns, code, old(Cur()), iindx, end).cursor == CopySpec(anns, code, Cur(), next, end).cursor
    {
      if anns[a].Element? {
        next, done := ElementStep(iindx, end);
      } else {
        OtherStep(iindx, end);
        next, done := iindx, false;
      }
    }

    /** CopyStep at an element record. */
    method ElementStep(iindx: int, end: int) returns (next: int, done: bool)
      requires Valid() && a < |anns| && anns[a].Element? && 0 <= iindx <= end < |code|
      modifies this`a, this`aindx, this`aoffset, this`aout
      ensures Valid()
      ensures done ==> aout == old(aout) + CopySpec(anns, code, old(Cur()), iindx, end).emitted
      ensures done ==> Cur() == CopySpec(anns, code, old(Cur()), iindx, end).cursor
      ensures !done ==> a == old(a) + 1 && iindx <= next <= end
      ensures !done ==> old(aout) + CopySpec(anns, code, old(Cur()), iindx, end).emitted ==
                        aout + CopySpec(anns, code, Cur(), next, end).emitted
      ensures !done ==> CopySpec(anns, code, old(Cur()), iindx, end).cursor == CopySpec(anns, code, Cur(), next, end).cursor
    {
      ghost var c, out := Cur(), aout;
      CopySpecAtElement(anns, code, c, iindx, end);
      next, done := CopyElement(iindx, end);
      if !done {
        ghost var e, rest := Cut(anns, code, c, iindx, end), CopySpec(anns, code, Cur(), next, end).emitted;
        assert out + (e + rest) == (out + e) + rest;
      }
    }

    /** CopyStep at a record that is not an element: it is copied as it is. */
    method OtherStep(iindx: int, end: int)
      requires Valid() && a < |anns| && !anns[a].Element? && 0 <= iindx <= end < |code|
      modifies this`a, this`aindx, this`aoffset, this`aout
      ensures Valid() && a == old(a) + 1
      ensures old(aout) + CopySpec(anns, code, old(Cur()), iindx, end).emitted ==
              aout + CopySpec(anns, code, Cur(), iindx, end).emitted
      ensures CopySpec(anns, code, old(Cur()), iindx, end).cursor == CopySpec(anns, code, Cur(), iindx, end).cursor
    {
      ghost var c, out := Cur(), aout;
      CopySpecAtOther(anns, code, c, iindx, end);
      aout := aout + [anns[a]];
      Advance();
      ghost var rest := CopySpec(anns, code, Cur(), iindx, end).emitted;
      assert out + ([anns[c.a]] + rest) == (out + [anns[c.a]]) + rest;
    }

    /** optimize_annotationcopyforblock for the block from start to end. */
    method CopyForBlock(start: nat, end: int)
      requires Valid() && start <= end < |code|
      modifies this`a, this`aindx, this`aoffset, this`aout
      ensures Valid()
      ensures aout == old(aout) + CopySpec(anns, code, MoveToSpec(anns, old(Cur()), start), start, end).emitted
      ensures Cur() == CopySpec(anns, code, MoveToSpec(anns, old(Cur()), start), start, end).cursor
    {
      MoveTo(start);
      ghost var c0 := Cur();
      ghost var out0 := aout;
      var iindx: int := start;
      while a < |anns|
        invariant Valid() && start <= iindx <= end
        invariant out0 + CopySpec(anns, code, c0, start, end).emitted == aout + CopySpec(anns, code, Cur(), iindx, end).emitted
        invariant CopySpec(anns, code, c0, start, end).cursor == CopySpec(anns, code, Cur(), iindx, end).cursor
        decreases |anns| - a
      {
        var done;
        iindx, done := CopyStep(iindx, end);
        if done {
          return;
        }
      }
    }
  }
}
