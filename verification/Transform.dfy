/** The converter between solution files and allocation files, over its global maps. */
module Transform {
  import opened OrderedSets
  import opened SolText
  import opened TransformSpec

  class Converter {
    var hID2Index: map<int, int>
    var hIndex2ID: map<int, int>
    var hData2Block: map<int, int>
    var hBlock2Data: map<int, set<int>>

    /** The global maps are empty at first. */
    constructor ()
      ensures hID2Index == hIndex2ID == map[] && Filing() == NO_MAPS
    {
      hID2Index, hIndex2ID, hData2Block, hBlock2Data := map[], map[], map[], map[];
    }

    /** Numbers the data in the order of the .dat file. */
    method GetMapinfo(lines: seq<string>) returns (ok: bool)
      requires hID2Index == hIndex2ID == map[]
      modifies this`hID2Index, this`hIndex2ID
      ensures ok == ReadDat(lines, NO_DATA).Some?
      ensures ok ==>
                && hIndex2ID == ReadDat(lines, NO_DATA).value.index2ID
                && hID2Index == ReadDat(lines, NO_DATA).value.id2Index
      ensures forall ids :: Lists(lines, ids) ==> ok && hIndex2ID == InOrder(ids)
    {
      hide ReadDatLine, Lists, InOrder;
      forall ids | Lists(lines, ids)
        ensures ReadDat(lines, NO_DATA).Some? && ReadDat(lines, NO_DATA).value.index2ID == InOrder(ids)
      {
        DatFromStart(lines, ids);
      }
      var nCount := 0;
      var i := 0;
      while i < |lines|
        invariant 0 <= i <= |lines|
        invariant ReadDat(lines[i..], Numbering(hIndex2ID, hID2Index, nCount)) == ReadDat(lines, NO_DATA)
      {
        assert lines[i..][0] == lines[i] && lines[i..][1..] == lines[i + 1..];
        var read := ReadEntry(lines[i]);
        match read {
          case Unreadable =>
            return false;
          case NoEntry =>
          case Entry(dataID) =>
            hID2Index := hID2Index[dataID := nCount];
            hIndex2ID := hIndex2ID[nCount := dataID];
            nCount := nCount + 1;
        }
        i := i + 1;
      }
      return true;
    }

    /** The second of the fields between commas, if the line holds an entry. */
    method ReadEntry(line: string) returns (r: DatLine)
      ensures r == ReadDatLine(line)
    {
      hide FindText, ParseInt, Find;
      var szLine := line;
      if FindText(szLine, "nBlocks") >= 0 {
        if |szLine| < 10 {
          return Unreadable;
        }
        szLine := Before(szLine[10..], ';');
      }
      if Find(szLine, '<') < 0 {
        return NoEntry;
      }
      szLine := szLine[1..];
      szLine := After(szLine, ',');
      szLine := Before(szLine, ',');
      var dataID := ParseInt(szLine);
      r := if dataID == None then Unreadable else Entry(dataID.value);
    }

    ghost function Filing(): Maps
      reads this
    {
      TransformSpec.Maps(hData2Block, hBlock2Data)
    }

    /** Files a datum under a block. */
    method File(block: int, data: int)
      modifies this`hData2Block, this`hBlock2Data
      ensures Filing() == Put(old(Filing()), block, data)
    {
      hBlock2Data := hBlock2Data[block := (if block in hBlock2Data then hBlock2Data[block] else {}) + {data}];
      hData2Block := hData2Block[data := block];
    }

    method WriteBlock(data: set<int>) returns (line: string)
      requires data != {}
      ensures line == BlockLine(Sorted(data))
    {
      hide Print, Items;
      LeastExists(data);
      var first: int :| IsLeast(data, first);
      FirstIsLeast(data, first);
      line := Print(first) + ":\t";
      var todo := data;
      assert BlockLine(Sorted(data)) == line + Items(Sorted(data));
      while todo != {}
        invariant line + Items(Sorted(todo)) == BlockLine(Sorted(data))
        decreases todo
      {
        LeastExists(todo);
        var d: int :| IsLeast(todo, d);
        FirstIsLeast(todo, d);
        ItemsStep(Sorted(todo));
        Regroup(line, Print(d) + "; ", Items(Sorted(todo - {d})));
        todo := todo - {d};
        line := line + (Print(d) + "; ");
      }
      assert Items([]) == "" by { NoItems(); }
    }

    static lemma FirstIsLeast(s: set<int>, x: int)
      requires IsLeast(s, x)
      ensures s != {} && Sorted(s) == [x] + Sorted(s - {x}) && Sorted(s)[0] == x && Sorted(s)[1..] == Sorted(s - {x})
    {
      assert Least(s) == x;
    }

    static lemma ItemsStep(data: seq<int>)
      requires data != []
      ensures Items(data) == (Print(data[0]) + "; ") + Items(data[1..])
    {
    }

    static lemma NoItems()
      ensures Items([]) == ""
    {
    }

    static lemma Regroup(a: string, b: string, c: string)
      ensures a + (b + c) == (a + b) + c
    {
    }

    method WriteAllocFile() returns (lines: seq<string>)
      requires NoneEmpty(hBlock2Data)
      ensures lines == AllocLines(hBlock2Data)
    {
      hide BlockLine, Sorted;
      lines := ["###1"];
      var todo := hBlock2Data.Keys;
      while todo != {}
        invariant todo <= hBlock2Data.Keys && lines + BlockLines(hBlock2Data, todo) == AllocLines(hBlock2Data)
        decreases todo
      {
        LeastExists(todo);
        var b: int :| IsLeast(todo, b);
        assert Least(todo) == b;
        var line := WriteBlock(hBlock2Data[b]);
        assert BlockLines(hBlock2Data, todo) == [line] + BlockLines(hBlock2Data, todo - {b});
        todo := todo - {b};
        assert lines + ([line] + BlockLines(hBlock2Data, todo)) == (lines + [line]) + BlockLines(hBlock2Data, todo);
        lines := lines + [line];
      }
    }

    /** Reads the data of one line into a block; false if a number is missing. */
    method ReadBlock(line: string, block: int) returns (ok: bool)
      modifies this`hData2Block, this`hBlock2Data
      ensures var r := ReadItems(line, block, old(Filing())); ok == r.Some? && (ok ==> Filing() == r.value)
    {
      hide Put, ParseInt, Find;
      var szLine := line;
      var index := Find(szLine, ';');
      while index >= 0
        invariant index == Find(szLine, ';')
        invariant ReadItems(szLine, block, Filing()) == ReadItems(line, block, old(Filing()))
        decreases |szLine|
      {
        var nData := ParseInt(szLine[..index]);
        if nData == None {
          return false;
        }
        File(block, nData.value);
        szLine := szLine[index + 1..];
        if |szLine| < 4 {
          return true;
        }
        index := Find(szLine, ';');
      }
      return true;
    }

    method ReadAllocFile(lines: seq<string>) returns (ok: bool)
      modifies this`hData2Block, this`hBlock2Data
      ensures var r := ReadAlloc(lines, -1, old(Filing())); ok == r.Some? && (ok ==> Filing() == r.value)
    {
      hide ReadItems, ParseInt, Find, After;
      var nBlock := -1;
      var i := 0;
      while i < |lines|
        invariant 0 <= i <= |lines|
        invariant ReadAlloc(lines[i..], nBlock, Filing()) == ReadAlloc(lines, -1, old(Filing()))
      {
        var szLine := lines[i];
        assert lines[i..][0] == szLine && lines[i..][1..] == lines[i + 1..];
        i := i + 1;
        if |szLine| < 4 {
          continue;
        }
        if StartsWith(szLine, "###") {
          var nFunc := ParseInt(szLine[3..]);
          if nFunc == None {
            return false;
          }
          if nFunc.value == 1 {
            continue;
          }
          return true;
        }
        if Find(szLine, ':') >= 0 {
          nBlock := nBlock + 1;
        }
        var read := ReadBlock(After(szLine, ':'), nBlock);
        if !read {
          return false;
        }
      }
      return true;
    }

    /** `g_hIndex2ID[index]`, which adds a missing entry as 0. */
    method LookUpID(index: int) returns (id: int)
      modifies this`hIndex2ID
      ensures id == IdOf(old(hIndex2ID), index) && forall i :: IdOf(hIndex2ID, i) == IdOf(old(hIndex2ID), i)
    {
      if index !in hIndex2ID {
        hIndex2ID := hIndex2ID[index := 0];
      }
      id := hIndex2ID[index];
    }

    method ReadVariable(szLine: string) returns (ok: bool)
      modifies this
      ensures var r := ReadSolLine(szLine, old(hIndex2ID), old(Filing())); ok == r.Some? && (ok ==> Filing() == r.value)
      ensures forall i :: IdOf(hIndex2ID, i) == IdOf(old(hIndex2ID), i)
    {
      hide Put, ParseInt, Before, After, FindText, IdOf;
      var index := FindText(szLine, TAG);
      if index < 0 {
        return true;
      }
      var szVariable := After(szLine[index + 16..], '#');
      var szDataIndex := Before(szVariable, '#');
      szVariable := After(szVariable, '#');
      var szBlockIndex := Before(szVariable, '"');
      var nDataIndex := ParseInt(szDataIndex);
      var nBlockIndex := ParseInt(szBlockIndex);
      if nDataIndex == None || nBlockIndex == None {
        return false;
      }
      var nDataID := LookUpID(nDataIndex.value);
      if nDataID == 0 || nDataID == 1 {
        return true;
      }
      File(nBlockIndex.value, nDataID);
      return true;
    }

    method ReadSolFile(lines: seq<string>) returns (ok: bool)
      modifies this
      ensures var r := ReadSol(lines, old(hIndex2ID), old(Filing())); ok == r.Some? && (ok ==> Filing() == r.value)
      ensures forall pairs :: Assigns(lines, pairs) && old(Filing()) == NO_MAPS ==> ok && FiledBy(Filing(), old(hIndex2ID), pairs)
    {
      hide ReadSolLine, IdOf, Assigns, FiledBy;
      forall pairs | Assigns(lines, pairs)
        ensures ReadSol(lines, hIndex2ID, NO_MAPS).Some? && FiledBy(ReadSol(lines, hIndex2ID, NO_MAPS).value, hIndex2ID, pairs)
      {
        SolFromStart(lines, pairs, hIndex2ID);
      }
      ghost var index2ID := hIndex2ID;
      var i := 0;
      while i < |lines|
        invariant 0 <= i <= |lines| && forall k :: IdOf(hIndex2ID, k) == IdOf(index2ID, k)
        invariant ReadSol(lines[i..], index2ID, Filing()) == ReadSol(lines, index2ID, old(Filing()))
      {
        assert lines[i..][0] == lines[i] && lines[i..][1..] == lines[i + 1..];
        SameLookUps(lines[i], hIndex2ID, index2ID, Filing());
        ok := ReadVariable(lines[i]);
        if !ok {
          return;
        }
        i := i + 1;
      }
      ok := true;
    }

    static lemma SameLookUps(line: string, a: map<int, int>, b: map<int, int>, m: Maps)
      requires forall i :: IdOf(a, i) == IdOf(b, i)
      ensures ReadSolLine(line, a, m) == ReadSolLine(line, b, m)
    {
      hide IdOf;
    }

    /** `g_hData2Block[id]`, which adds a missing entry as 0. */
    method LookUpBlock(id: int) returns (block: int)
      modifies this`hData2Block
      ensures block == BlockFor(old(hData2Block), id) && forall d :: BlockFor(hData2Block, d) == BlockFor(old(hData2Block), d)
    {
      if id !in hData2Block {
        hData2Block := hData2Block[id := 0];
      }
      block := hData2Block[id];
    }

    method WriteSolFile(szFile: string) returns (lines: seq<string>)
      modifies this`hData2Block
      ensures lines == SolLines(szFile, hIndex2ID, old(hData2Block))
    {
      hide SolLine, BlockFor, Top, Bottom;
      lines := Top(szFile);
      ghost var d2b := hData2Block;
      ghost var all := Top(szFile) + VariableLines(hIndex2ID, hIndex2ID.Keys, d2b);
      var todo := hIndex2ID.Keys;
      while todo != {}
        invariant todo <= hIndex2ID.Keys && lines + VariableLines(hIndex2ID, todo, d2b) == all
        invariant forall d :: BlockFor(hData2Block, d) == BlockFor(d2b, d)
        decreases todo
      {
        LeastExists(todo);
        var nDataIndex: int :| IsLeast(todo, nDataIndex);
        assert Least(todo) == nDataIndex;
        var nBlock := LookUpBlock(hIndex2ID[nDataIndex]);
        var line := SolLine(nDataIndex, nBlock);
        assert VariableLines(hIndex2ID, todo, d2b) == [line] + VariableLines(hIndex2ID, todo - {nDataIndex}, d2b);
        todo := todo - {nDataIndex};
        assert lines + ([line] + VariableLines(hIndex2ID, todo, d2b)) == (lines + [line]) + VariableLines(hIndex2ID, todo, d2b);
        lines := lines + [line];
      }
      assert lines == all;
      lines := lines + Bottom();
    }
  }

  /** The two runs of the converter, one after the other: a solution is read and written as an
      allocation file, and that is read and written as a solution file. Reading the result once more
      gives the blocks of the first solution, up to their rank. */
  method ThereAndBack(szFile: string, dat: seq<string>, sol: seq<string>) returns (ok: bool, again: seq<string>)
    ensures ok ==> ReadDat(dat, NO_DATA).Some? && ReadSol(sol, ReadDat(dat, NO_DATA).value.index2ID, NO_MAPS).Some?
    ensures ReadDat(dat, NO_DATA).Some? ==> Returns(szFile, ReadDat(dat, NO_DATA).value.index2ID, sol, ok, again)
  {
    hide ReadDat, ReadSol, ReadAlloc, Consistent, Known, Rank, FindText, ProblemLine, AllocLines, SolLines, OneBlockEach;
    again := [];
    var first := new Converter();
    ok := first.GetMapinfo(dat);
    if !ok { return; }
    ghost var index2ID := first.hIndex2ID;
    ok := first.ReadSolFile(sol);
    if !ok { return; }
    ghost var m := first.Filing();
    NothingLinked(Known(index2ID, index2ID.Keys));
    ReadSolFiles(sol, index2ID, NO_MAPS);
    LinkedHasData(m, Known(index2ID, index2ID.Keys));
    var alloc := first.WriteAllocFile();
    var second := new Converter();
    ok := second.GetMapinfo(dat);
    ok := second.ReadAllocFile(alloc + [""]);
    if ok { again := second.WriteSolFile(szFile); }
    if OneBlockEach(m) && FindText(ProblemLine(szFile), TAG) < 0 {
      ConverterRoundTrip(szFile, index2ID, m);
    }
  }

  /** For a solution that puts no datum into two blocks, the file that comes back has every datum's
      block replaced by its rank, and is exactly the renumbered solution if and only if the solution
      had a block for every known datum. */
  ghost predicate Returns(szFile: string, index2ID: map<int, int>, sol: seq<string>, ok: bool, again: seq<string>) {
    ReadSol(sol, index2ID, NO_MAPS).Some? && OneBlockEach(ReadSol(sol, index2ID, NO_MAPS).value)
    && FindText(ProblemLine(szFile), TAG) < 0 ==>
      && ok && ReadSol(again + [""], index2ID, NO_MAPS).Some?
      && var m, n := ReadSol(sol, index2ID, NO_MAPS).value, ReadSol(again + [""], index2ID, NO_MAPS).value;
         && Consistent(n)
         && (forall d :: d in m.data2Block ==> d in n.data2Block && n.data2Block[d] == Rank(m.block2Data.Keys, m.data2Block[d]))
         && (IsRenumbered(m, n) <==> m.data2Block.Keys == Known(index2ID, index2ID.Keys))
  }

  lemma NothingLinked(ids: set<int>)
    ensures Linked(NO_MAPS, ids)
  {
  }

  lemma LinkedHasData(m: Maps, ids: set<int>)
    requires Linked(m, ids)
    ensures NoneEmpty(m.block2Data) && m.data2Block.Keys <= ids
  {
  }
}
