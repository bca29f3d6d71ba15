/** The converter's two file formats: assignments of data to blocks, as they are written and read. */
module TransformSpec {
  import opened OrderedSets
  import opened SolText

  /** The block of each datum, and the data of each block. */
  datatype Maps = Maps(data2Block: map<int, int>, block2Data: map<int, set<int>>)

  const NO_MAPS := Maps(map[], map[])

  function Members(m: Maps, block: int): set<int> {
    if block in m.block2Data then m.block2Data[block] else {}
  }

  function Put(m: Maps, block: int, data: int): Maps {
    Maps(m.data2Block[data := block], m.block2Data[block := Members(m, block) + {data}])
  }

  /** Each map is the other one turned around: no datum is in two blocks. */
  ghost predicate Consistent(m: Maps) {
    && (forall d :: d in m.data2Block ==> m.data2Block[d] in m.block2Data && d in m.block2Data[m.data2Block[d]])
    && forall b :: b in m.block2Data ==>
         m.block2Data[b] != {} && forall d :: d in m.block2Data[b] ==> d in m.data2Block && m.data2Block[d] == b
  }

  lemma PutKeeps(m: Maps, block: int, data: int)
    requires Consistent(m) && (data in m.data2Block ==> m.data2Block[data] == block)
    ensures Consistent(Put(m, block, data))
  {
  }

  // ----- the .alloc format -----

  function Items(data: seq<int>): string {
    if data == [] then "" else Print(data[0]) + "; " + Items(data[1..])
  }

  /** The line of a block: its first datum as a title, and all of its data. */
  function BlockLine(data: seq<int>): string
    requires data != []
  {
    Print(data[0]) + ":\t" + Items(data)
  }

  ghost predicate NoneEmpty(b2d: map<int, set<int>>) {
    forall b :: b in b2d ==> b2d[b] != {}
  }

  ghost function BlockLines(b2d: map<int, set<int>>, blocks: set<int>): seq<string>
    requires NoneEmpty(b2d) && blocks <= b2d.Keys
    decreases blocks
  {
    if blocks == {} then []
    else
      var b := Least(blocks);
      [BlockLine(Sorted(b2d[b]))] + BlockLines(b2d, blocks - {b})
  }

  /** The lines of the .alloc file. */
  ghost function AllocLines(b2d: map<int, set<int>>): seq<string>
    requires NoneEmpty(b2d)
  {
    ["###1"] + BlockLines(b2d, b2d.Keys)
  }

  /** Reads the data of a block up to the last `;`. Reading stops when less than four characters are left. */
  function ReadItems(line: string, block: int, m: Maps): Option<Maps>
    decreases |line|
  {
    var i := Find(line, ';');
    if i < 0 then Some(m)
    else
      match ParseInt(line[..i])
      case None => None
      case Some(d) =>
        var rest := line[i + 1..];
        if |rest| < 4 then Some(Put(m, block, d)) else ReadItems(rest, block, Put(m, block, d))
  }

  /** Reads the lines of an .alloc file; there is no result if a number is missing. */
  function ReadAlloc(lines: seq<string>, nBlock: int, m: Maps): Option<Maps> {
    if lines == [] then Some(m)
    else
      var line := lines[0];
      if |line| < 4 then ReadAlloc(lines[1..], nBlock, m)
      else if StartsWith(line, "###") then
        (match ParseInt(line[3..])
         case None => None
         case Some(nFunc) => if nFunc == 1 then ReadAlloc(lines[1..], nBlock, m) else Some(m))
      else
        var block := if Find(line, ':') < 0 then nBlock else nBlock + 1;
        match ReadItems(After(line, ':'), block, m)
        case None => None
        case Some(n) => ReadAlloc(lines[1..], block, n)
  }

  // ----- the .sol format -----

  const TAG := "<variable name=\"x#"

  function IdOf(index2ID: map<int, int>, index: int): int {
    if index in index2ID then index2ID[index] else 0
  }

  /** A datum without a block is written with block 0. */
  function BlockFor(d2b: map<int, int>, id: int): int {
    if id in d2b then d2b[id] else 0
  }

  function SolLine(index: int, block: int): string {
    "\t\t" + TAG + Print(index) + "#" + Print(block) + "\" value=\"1\"/>"
  }

  ghost function VariableLines(index2ID: map<int, int>, indices: set<int>, d2b: map<int, int>): seq<string>
    requires indices <= index2ID.Keys
    decreases indices
  {
    if indices == {} then []
    else
      var i := Least(indices);
      [SolLine(i, BlockFor(d2b, index2ID[i]))] + VariableLines(index2ID, indices - {i}, d2b)
  }

  function ProblemLine(szFile: string): string {
    "\t\tproblemName=\"" + szFile + ".lp\""
  }

  function Top(szFile: string): seq<string> {
    ["<?xml version = \"1.0\" " + "encoding=\"UTF-8\" " + "standalone=\"yes\"?>", "<CPLEXSolution version=\"1.2\">",
     "\t<header", ProblemLine(szFile), "\t\tsolutionStatusString=" + "\"integer feasible solution\"",
     "\t\tsolutionMethodString=\"mip\"/>", "\t<variables>"]
  }

  function Bottom(): seq<string> {
    ["\t</variables>", "</CPLEXSolution>"]
  }

  /** The lines of the .sol file. */
  ghost function SolLines(szFile: string, index2ID: map<int, int>, d2b: map<int, int>): seq<string> {
    Top(szFile) + VariableLines(index2ID, index2ID.Keys, d2b) + Bottom()
  }

  /** Reads one line: the variable's data index and block number; data 0 and 1 are left aside. */
  function ReadSolLine(line: string, index2ID: map<int, int>, m: Maps): Option<Maps> {
    var i := FindText(line, TAG);
    if i < 0 then Some(m)
    else
      var name := After(line[i + 16..], '#');
      match (ParseInt(Before(name, '#')), ParseInt(Before(After(name, '#'), '"')))
      case (Some(index), Some(block)) =>
        var id := IdOf(index2ID, index);
        if id == 0 || id == 1 then Some(m) else Some(Put(m, block, id))
      case _ => None
  }

  function ReadSol(lines: seq<string>, index2ID: map<int, int>, m: Maps): Option<Maps> {
    if lines == [] then Some(m)
    else
      match ReadSolLine(lines[0], index2ID, m)
      case None => None
      case Some(n) => ReadSol(lines[1..], index2ID, n)
  }

  // ----- the numbering of the data -----

  /** The data in the order of the .dat file, and the last place of each. */
  datatype Numbering = Numbering(index2ID: map<int, int>, id2Index: map<int, int>, count: nat)

  const NO_DATA := Numbering(map[], map[], 0)

  /** What a line of the .dat file says; a line that is too short, or has no number, cannot be read. */
  datatype DatLine = NoEntry | Entry(id: int) | Unreadable

  function ReadDatLine(line: string): DatLine {
    var counts := FindText(line, "nBlocks") >= 0;
    if counts && |line| < 10 then Unreadable
    else
      var rest := if counts then Before(line[10..], ';') else line;
      if Find(rest, '<') < 0 then NoEntry
      else
        match ParseInt(Before(After(rest[1..], ','), ','))
        case None => Unreadable
        case Some(id) => Entry(id)
  }

  function Number(n: Numbering, id: int): Numbering {
    Numbering(n.index2ID[n.count := id], n.id2Index[id := n.count], n.count + 1)
  }

  function ReadDat(lines: seq<string>, n: Numbering): Option<Numbering> {
    if lines == [] then Some(n)
    else
      match ReadDatLine(lines[0])
      case Unreadable => None
      case NoEntry => ReadDat(lines[1..], n)
      case Entry(id) => ReadDat(lines[1..], Number(n, id))
  }

  /** The data are numbered from 0 without gaps, and each datum leads to the last of its numbers. */
  ghost predicate Numbered(n: Numbering) {
    && (forall i :: i in n.index2ID <==> 0 <= i < n.count)
    && (forall i :: i in n.index2ID ==> n.index2ID[i] in n.id2Index && n.id2Index[n.index2ID[i]] >= i)
    && forall d :: d in n.id2Index ==> n.id2Index[d] in n.index2ID && n.index2ID[n.id2Index[d]] == d
  }

  lemma {:induction false} DatIsNumbered(lines: seq<string>, n: Numbering)
    requires Numbered(n)
    ensures ReadDat(lines, n).Some? ==> Numbered(ReadDat(lines, n).value)
  {
    hide ReadDatLine, Numbered, Number;
    if lines == [] {
    } else {
      match ReadDatLine(lines[0])
      case Unreadable =>
      case NoEntry => DatIsNumbered(lines[1..], n);
      case Entry(id) => OneMoreNumber(n, id); DatIsNumbered(lines[1..], Number(n, id));
    }
  }

  lemma OneMoreNumber(n: Numbering, id: int)
    requires Numbered(n)
    ensures Numbered(Number(n, id))
  {
  }

  // ----- what a .dat file says -----

  /** An entry: the second field is the datum's id, whatever stands in the first one and behind. */
  ghost predicate IsEntry(line: string, id: int) {
    NoText(line, "nBlocks") && exists cycle, blanks, tail :: EntryOf(line, cycle, blanks, id, tail)
  }

  ghost predicate EntryOf(line: string, cycle: string, blanks: string, id: int, tail: string) {
    && ',' !in cycle && (forall c :: c in blanks ==> IsSpace(c))
    && line == "<" + cycle + "," + blanks + Print(id) + "," + tail
  }

  /** A line without an entry: it has no `<`, not counting the head and the end of a line that gives the number of blocks. */
  predicate IsPlain(line: string) {
    if NoText(line, "nBlocks") then '<' !in line
    else |line| >= 10 && '<' !in Before(line[10..], ';')
  }

  lemma PlainLine(line: string)
    requires IsPlain(line)
    ensures ReadDatLine(line) == NoEntry
  {
    hide FindText, Before;
    NotFound(line, "nBlocks");
  }

  lemma FieldHasNoComma(blanks: string, id: int)
    requires forall c :: c in blanks ==> IsSpace(c)
    ensures ',' !in blanks + Print(id)
  {
    hide Print;
    PrintedHasNone(id, ',');
  }

  lemma EntryLine(line: string, id: int)
    requires IsEntry(line, id)
    ensures ReadDatLine(line) == Entry(id)
  {
    hide FindText, Print, ParseInt, Before, After;
    NotFound(line, "nBlocks");
    var cycle, blanks, tail :| EntryOf(line, cycle, blanks, id, tail);
    var field := blanks + Print(id);
    FieldHasNoComma(blanks, id);
    assert line[0] == '<';
    assert line[1..] == cycle + [','] + (field + [','] + tail);
    CutAt(cycle, ',', field + [','] + tail);
    CutAt(field, ',', tail);
    ParsePrinted(blanks, id);
  }

  /** The entries of a file, in order, are the given ids. */
  ghost predicate Lists(lines: seq<string>, ids: seq<int>) {
    if lines == [] then ids == []
    else
      || (IsPlain(lines[0]) && Lists(lines[1..], ids))
      || (ids != [] && IsEntry(lines[0], ids[0]) && Lists(lines[1..], ids[1..]))
  }

  /** r numbers the ids in order, behind the data that n has numbered. */
  ghost predicate Continues(n: Numbering, ids: seq<int>, r: Numbering) {
    && r.count == n.count + |ids|
    && (forall i :: i in r.index2ID <==> i in n.index2ID || n.count <= i < r.count)
    && forall i :: i in r.index2ID ==> r.index2ID[i] == if n.count <= i < r.count then ids[i - n.count] else n.index2ID[i]
  }

  /** The i-th entry of the file gets number i. */
  lemma {:induction false} DatInOrder(lines: seq<string>, ids: seq<int>, n: Numbering)
    requires Lists(lines, ids)
    ensures ReadDat(lines, n).Some? && Continues(n, ids, ReadDat(lines, n).value)
  {
    hide ReadDatLine, IsPlain, IsEntry;
    if lines == [] {
    } else if IsPlain(lines[0]) && Lists(lines[1..], ids) {
      PlainLine(lines[0]);
      DatInOrder(lines[1..], ids, n);
    } else {
      EntryLine(lines[0], ids[0]);
      DatInOrder(lines[1..], ids[1..], Number(n, ids[0]));
      ContinuesOneMore(n, ids, ReadDat(lines, n).value);
    }
  }

  lemma ContinuesOneMore(n: Numbering, ids: seq<int>, r: Numbering)
    requires ids != [] && Continues(Number(n, ids[0]), ids[1..], r)
    ensures Continues(n, ids, r)
  {
  }

  /** From the start: exactly the numbers below the number of entries, each with its entry's id. */
  lemma DatFromStart(lines: seq<string>, ids: seq<int>)
    requires Lists(lines, ids)
    ensures ReadDat(lines, NO_DATA).Some?
    ensures ReadDat(lines, NO_DATA).value.index2ID == InOrder(ids)
  {
    hide ReadDat, Lists;
    DatInOrder(lines, ids, NO_DATA);
  }

  function InOrder(ids: seq<int>): map<int, int> {
    map i | 0 <= i < |ids| :: ids[i]
  }

  // ----- an .alloc file is read back -----

  function PutAll(m: Maps, block: int, data: seq<int>): Maps
    decreases |data|
  {
    if data == [] then m else PutAll(Put(m, block, data[0]), block, data[1..])
  }

  lemma PrintedHasNone(n: int, c: char)
    requires !IsDigit(c) && c != '-'
    ensures c !in Print(n)
  {
  }

  /** The length guard of the reading loop never drops an item that was written. */
  lemma {:induction false} ItemsReadBack(blank: char, data: seq<int>, block: int, m: Maps)
    requires data != [] && IsSpace(blank)
    ensures ReadItems([blank] + Items(data), block, m) == Some(PutAll(m, block, data))
    decreases |data|
  {
    hide Print, ParseInt, Put;
    var item, more := [blank] + Print(data[0]), " " + Items(data[1..]);
    PrintedHasNone(data[0], ';');
    assert [blank] + Items(data) == item + [';'] + more;
    FindAfter(item, ';', more);
    ParsePrinted([blank], data[0]);
    assert (item + [';'] + more)[..|item|] == item && (item + [';'] + more)[|item| + 1..] == more;
    if data[1..] == [] {
    } else {
      ItemsReadBack(' ', data[1..], block, Put(m, block, data[0]));
      ItemIsLong(data[1..]);
    }
  }

  lemma ItemIsLong(data: seq<int>)
    requires data != []
    ensures |Items(data)| >= 3
  {
  }

  /** A line with a title, whatever it is, starts the next block. */
  lemma TitledLine(title: string, data: seq<int>, lines: seq<string>, nBlock: int, m: Maps)
    requires ':' !in title && !StartsWith(title + ":\t" + Items(data), "###") && data != []
    ensures ReadAlloc([title + ":\t" + Items(data)] + lines, nBlock, m) == ReadAlloc(lines, nBlock + 1, PutAll(m, nBlock + 1, data))
  {
    hide Print, ReadItems, Items, PutAll, StartsWith;
    ItemIsLong(data);
    var line := title + ":\t" + Items(data);
    assert line == title + [':'] + ("\t" + Items(data));
    CutAt(title, ':', "\t" + Items(data));
    FindAfter(title, ':', "\t" + Items(data));
    ItemsReadBack('\t', data, nBlock + 1, m);
    assert ([line] + lines)[1..] == lines;
  }

  /** An item without a number ends the reading without a result. */
  lemma MissingNumber(item: string, rest: string, block: int, m: Maps)
    requires ';' !in item && ParseInt(item).None?
    ensures ReadItems(item + [';'] + rest, block, m) == None
  {
    hide ParseInt;
    FindAfter(item, ';', rest);
    assert (item + [';'] + rest)[..|item|] == item;
  }

  lemma BlockLineReadBack(data: seq<int>, lines: seq<string>, nBlock: int, m: Maps)
    requires data != []
    ensures ReadAlloc([BlockLine(data)] + lines, nBlock, m) == ReadAlloc(lines, nBlock + 1, PutAll(m, nBlock + 1, data))
  {
    hide Print, Items, ReadAlloc, PutAll;
    var title := Print(data[0]);
    PrintedHasNone(data[0], ':');
    PrintedHasNone(data[0], '#');
    assert BlockLine(data)[0] == title[0] && title[0] in title;
    assert !StartsWith(BlockLine(data), "###") by { assert "###"[0] == '#'; }
    TitledLine(title, data, lines, nBlock, m);
  }

  /** The title of a block is its first datum. */
  lemma TitleIsFirst(data: seq<int>)
    requires data != []
    ensures Before(BlockLine(data), ':') == Print(data[0])
  {
    hide Print, Items;
    PrintedHasNone(data[0], ':');
    assert BlockLine(data) == Print(data[0]) + [':'] + ("\t" + Items(data));
    CutAt(Print(data[0]), ':', "\t" + Items(data));
  }

  /** A line without a title goes on with the block of the line before it. */
  lemma ContinuedLine(data: seq<int>, lines: seq<string>, nBlock: int, m: Maps)
    requires data != []
    ensures ReadAlloc([" " + Items(data)] + lines, nBlock, m) == ReadAlloc(lines, nBlock, PutAll(m, nBlock, data))
  {
    hide ReadItems, Items, PutAll, Print;
    var line := " " + Items(data);
    ItemIsLong(data);
    ItemsHaveNoColon(data);
    assert !StartsWith(line, "###") by { assert line[0] == ' ' && "###"[0] == '#'; }
    ItemsReadBack(' ', data, nBlock, m);
    assert ([line] + lines)[1..] == lines;
  }

  lemma {:induction false} ItemsHaveNoColon(data: seq<int>)
    ensures ':' !in Items(data)
  {
    if data == [] {
    } else {
      hide Print;
      PrintedHasNone(data[0], ':');
      ItemsHaveNoColon(data[1..]);
    }
  }

  /** Only function 1 is read: the section of any other one ends the reading. */
  lemma SectionLine(k: int, lines: seq<string>, nBlock: int, m: Maps)
    ensures ReadAlloc(["###" + Print(k)] + lines, nBlock, m) == if k == 1 then ReadAlloc(lines, nBlock, m) else Some(m)
  {
    hide Print, ParseInt;
    var line := "###" + Print(k);
    assert (["###" + Print(k)] + lines)[1..] == lines;
    assert line[3..] == Print(k) && line[..3] == "###";
    ParsePrinted("", k);
    assert "" + Print(k) == Print(k);
  }

  /** How many of the used block numbers are below b. */
  function Rank(used: set<int>, b: int): nat {
    |set k | k in used && k < b|
  }

  /** n files exactly those data of m whose blocks are in `done`, each under the rank of its block. */
  ghost predicate RenumberedUpTo(m: Maps, n: Maps, done: set<int>) {
    && Consistent(n)
    && (forall d :: d in n.data2Block <==> d in m.data2Block && m.data2Block[d] in done)
    && forall d :: d in n.data2Block ==> n.data2Block[d] == Rank(m.block2Data.Keys, m.data2Block[d])
  }

  /** n is m with every block number replaced by its rank among the used ones. */
  ghost predicate IsRenumbered(m: Maps, n: Maps) {
    && Consistent(n) && n.data2Block.Keys == m.data2Block.Keys
    && forall d :: d in m.data2Block ==> n.data2Block[d] == Rank(m.block2Data.Keys, m.data2Block[d])
  }

  /** Ranks keep apart what was apart. */
  lemma RankGrows(used: set<int>, a: int, b: int)
    requires a in used && a < b
    ensures Rank(used, a) < Rank(used, b)
  {
    var x, y := set k | k in used && k < a, set k | k in used && k < b;
    assert y == x + {a} + (y - x - {a});
  }

  /** Renumbering keeps the partition: two data share a block after it exactly when they did before. */
  lemma SamePartition(m: Maps, n: Maps, c: int, d: int)
    requires Consistent(m) && IsRenumbered(m, n) && c in m.data2Block && d in m.data2Block
    ensures n.data2Block[c] == n.data2Block[d] <==> m.data2Block[c] == m.data2Block[d]
  {
    var a, b := m.data2Block[c], m.data2Block[d];
    if a < b { RankGrows(m.block2Data.Keys, a, b); }
    if b < a { RankGrows(m.block2Data.Keys, b, a); }
  }

  lemma {:induction false} PutAllRenumbers(m: Maps, n: Maps, done: set<int>, b: int, data: seq<int>)
    requires Consistent(m) && b in m.block2Data && b !in done
    requires Consistent(n) && forall k :: 0 <= k < |data| ==> data[k] in m.block2Data[b]
    requires forall d :: d in n.data2Block ==> d in m.data2Block && m.data2Block[d] in done + {b}
    requires forall d :: d in n.data2Block ==> n.data2Block[d] == Rank(m.block2Data.Keys, m.data2Block[d])
    ensures var p := PutAll(n, Rank(m.block2Data.Keys, b), data);
            && Consistent(p)
            && (forall d :: d in p.data2Block <==> d in n.data2Block || d in data)
            && forall d :: d in p.data2Block ==> d in m.data2Block && p.data2Block[d] == Rank(m.block2Data.Keys, m.data2Block[d])
    decreases |data|
  {
    if data == [] {
    } else {
      hide Rank;
      var r := Rank(m.block2Data.Keys, b);
      assert data[0] in m.block2Data[b];
      PutKeeps(n, r, data[0]);
      PutAllRenumbers(m, Put(n, r, data[0]), done, b, data[1..]);
    }
  }

  lemma BlocksHaveData(m: Maps)
    requires Consistent(m)
    ensures NoneEmpty(m.block2Data)
  {
  }

  lemma NothingRenumbered(m: Maps)
    ensures RenumberedUpTo(m, NO_MAPS, {})
  {
  }

  lemma OneBlockMore(m: Maps, n: Maps, done: set<int>, b: int, data: seq<int>)
    requires Consistent(m) && b in m.block2Data && b !in done && RenumberedUpTo(m, n, done)
    requires data == Sorted(m.block2Data[b])
    ensures RenumberedUpTo(m, PutAll(n, Rank(m.block2Data.Keys, b), data), done + {b})
  {
    hide Rank, PutAll;
    forall k | 0 <= k < |data| ensures data[k] in m.block2Data[b] {
      assert data[k] in data;
    }
    PutAllRenumbers(m, n, done, b, data);
  }

  lemma BlockLinesStep(b2d: map<int, set<int>>, blocks: set<int>)
    requires NoneEmpty(b2d) && blocks <= b2d.Keys && blocks != {}
    ensures var b := Least(blocks);
            b in b2d && BlockLines(b2d, blocks) == [BlockLine(Sorted(b2d[b]))] + BlockLines(b2d, blocks - {b})
  {
  }

  lemma NoBlockLines(b2d: map<int, set<int>>)
    requires NoneEmpty(b2d)
    ensures BlockLines(b2d, {}) == []
  {
  }

  lemma {:induction false} BlocksReadBack(m: Maps, n: Maps, blocks: set<int>, lines: seq<string>)
    requires Consistent(m) && NoneEmpty(m.block2Data) && blocks <= m.block2Data.Keys && |lines| == 1 && lines[0] == ""
    requires Below(m.block2Data.Keys - blocks, blocks)
    requires RenumberedUpTo(m, n, m.block2Data.Keys - blocks)
    ensures var r := ReadAlloc(BlockLines(m.block2Data, blocks) + lines, |m.block2Data.Keys - blocks| - 1, n);
            r.Some? && IsRenumbered(m, r.value)
    decreases blocks
  {
    hide BlockLine, BlockLines, Rank, ReadAlloc, PutAll, IsRenumbered, RenumberedUpTo, Consistent, Below;
    var used := m.block2Data.Keys;
    var done := used - blocks;
    if blocks == {} {
      NoBlockLines(m.block2Data);
      assert [] + lines == lines;
      EmptyLineSkipped(lines, |done| - 1, n);
      assert done == used;
      AllRenumbered(m, n);
    } else {
      var b := Least(blocks);
      var data := Sorted(m.block2Data[b]);
      var rest := BlockLines(m.block2Data, blocks - {b});
      BlockLinesStep(m.block2Data, blocks);
      assert BlockLines(m.block2Data, blocks) + lines == [BlockLine(data)] + (rest + lines);
      BlockLineReadBack(data, rest + lines, |done| - 1, n);
      NextBlock(used, blocks, b);
      OneBlockMore(m, n, done, b, data);
      BlocksReadBack(m, PutAll(n, |done|, data), blocks - {b}, lines);
    }
  }

  lemma AllRenumbered(m: Maps, n: Maps)
    requires Consistent(m) && RenumberedUpTo(m, n, m.block2Data.Keys)
    ensures IsRenumbered(m, n)
  {
    hide Rank;
    forall d ensures d in n.data2Block <==> d in m.data2Block {
      assert d in m.data2Block ==> m.data2Block[d] in m.block2Data;
    }
  }

  lemma EmptyLineSkipped(lines: seq<string>, nBlock: int, n: Maps)
    requires |lines| == 1 && lines[0] == ""
    ensures ReadAlloc(lines, nBlock, n) == Some(n)
  {
    assert lines[1..] == [];
  }

  ghost predicate Below(a: set<int>, b: set<int>) {
    forall x, y :: x in a && y in b ==> x < y
  }

  lemma NextBlock(used: set<int>, blocks: set<int>, b: int)
    requires blocks <= used && IsLeast(blocks, b) && Below(used - blocks, blocks)
    ensures Rank(used, b) == |used - blocks| && b !in used - blocks
    ensures used - (blocks - {b}) == used - blocks + {b} && |used - (blocks - {b})| == |used - blocks| + 1
    ensures Below(used - (blocks - {b}), blocks - {b})
  {
    assert (set k | k in used && k < b) == used - blocks;
    assert used - (blocks - {b}) == used - blocks + {b};
  }

  /** Writing an .alloc file and reading it back renumbers the blocks by rank, and changes nothing else. */
  lemma AllocRoundTrip(m: Maps)
    requires Consistent(m)
    ensures NoneEmpty(m.block2Data)
    ensures var r := ReadAlloc(AllocLines(m.block2Data) + [""], -1, NO_MAPS);
            r.Some? && IsRenumbered(m, r.value)
  {
    hide ReadAlloc, Consistent, IsRenumbered, Rank, BlockLines;
    BlocksHaveData(m);
    var lines := BlockLines(m.block2Data, m.block2Data.Keys) + [""];
    FirstLineRead(lines);
    NothingRenumbered(m);
    assert AllocLines(m.block2Data) + [""] == ["###1"] + lines;
    assert m.block2Data.Keys - m.block2Data.Keys == {};
    assert Below({}, m.block2Data.Keys);
    BlocksReadBack(m, NO_MAPS, m.block2Data.Keys, [""]);
  }

  lemma FirstLineRead(lines: seq<string>)
    ensures ReadAlloc(["###1"] + lines, -1, NO_MAPS) == ReadAlloc(lines, -1, NO_MAPS)
  {
    SectionLine(1, lines, -1, NO_MAPS);
    assert "###" + Print(1) == "###1";
  }

  // ----- a .sol file is read back -----

  /** The data that the numbering knows, apart from 0 and 1. */
  function Known(index2ID: map<int, int>, indices: set<int>): set<int> {
    set i | i in indices && i in index2ID && index2ID[i] != 0 && index2ID[i] != 1 :: index2ID[i]
  }

  /** What stands behind the tag in a variable's line. */
  function Behind(index: int, block: int, tail: string): string {
    Print(index) + (['#'] + (Print(block) + (['"'] + tail)))
  }

  /** The line gives the variable of an index and a block: the tag, for the first time, then index, `#`,
      block and a quote. Before the tag and behind the quote may stand anything. */
  ghost predicate IsVariable(line: string, index: int, block: int) {
    exists front, tail :: VariableOf(line, front, index, block, tail)
  }

  ghost predicate VariableOf(line: string, front: string, index: int, block: int, tail: string) {
    && line == front + "<variable name=\"x#" + Print(index) + "#" + Print(block) + "\"" + tail
    && forall k :: 0 <= k < |front| ==> !TextAt(line, "<variable name=\"x#", k)
  }

  lemma Grouped(a: string, b: string, c: string, d: string, e: string, f: string)
    ensures a + b + c + d + e + f == a + (b + (c + (d + (e + f))))
  {
  }

  lemma TagInFront(front: string, rest: string)
    ensures TextAt(front + TAG + rest, TAG, |front|)
    ensures (front + TAG + rest)[|front| + 16..] == "x" + ['#'] + rest
  {
    var line := front + TAG + rest;
    assert line[|front|..|front| + |TAG|] == TAG;
    assert line[|front| + 16..] == TAG[16..] + rest;
    assert TAG[16..] == "x" + ['#'];
  }

  /** Such a line files the datum of the index under the block, unless it is 0 or 1. */
  lemma VariableRead(line: string, index: int, block: int, index2ID: map<int, int>, m: Maps)
    requires IsVariable(line, index, block)
    ensures ReadSolLine(line, index2ID, m) == Some(FileOne(m, index2ID, index, block))
  {
    hide Print, ParseInt, Put, Before, After, FindText, TextAt, IdOf;
    var front, tail :| VariableOf(line, front, index, block, tail);
    Grouped(front + TAG, Print(index), "#", Print(block), "\"", tail);
    var rest := Behind(index, block, tail);
    assert line == front + TAG + rest;
    TagInFront(front, rest);
    FoundAt(line, TAG, |front|);
    CutAt("x", '#', rest);
    CutThere(Print(index), '#', Print(block) + (['"'] + tail));
    CutThere(Print(block), '"', tail);
    PrintedHasNone(index, '#');
    PrintedHasNone(block, '"');
    ParsePrinted("", index);
    ParsePrinted("", block);
    assert "" + Print(index) == Print(index) && "" + Print(block) == Print(block);
  }

  function FileOne(m: Maps, index2ID: map<int, int>, index: int, block: int): Maps {
    var id := IdOf(index2ID, index);
    if id == 0 || id == 1 then m else Put(m, block, id)
  }

  lemma SolLineIsVariable(index: int, block: int)
    ensures IsVariable(SolLine(index, block), index, block)
  {
    hide Print, TextAt;
    var line := SolLine(index, block);
    assert line == "\t\t" + TAG + Print(index) + "#" + Print(block) + "\"" + " value=\"1\"/>";
    assert line[0] == '\t' && line[1] == '\t' && TAG[0] == '<';
    NotThere(line, TAG, 0);
    NotThere(line, TAG, 1);
    assert VariableOf(line, "\t\t", index, block, " value=\"1\"/>");
  }

  lemma NotThere(s: string, t: string, k: nat)
    requires k < |s| && t != "" && s[k] != t[0]
    ensures !TextAt(s, t, k)
  {
    if k + |t| <= |s| { assert s[k..k + |t|][0] == s[k]; }
  }

  /** The line that is written for a variable. */
  lemma SolLineText(index: int, block: int)
    ensures SolLine(index, block) == "\t\t<variable name=\"x#" + (Print(index) + ("#" + (Print(block) + "\" value=\"1\"/>")))
  {
    hide Print;
    assert "\t\t" + TAG == "\t\t<variable name=\"x#";
    Grouped("\t\t" + TAG, Print(index), "#", Print(block), "\" value=\"1\"/>", "");
  }

  lemma SolLineReadBack(index: int, block: int, index2ID: map<int, int>, m: Maps)
    requires index in index2ID
    ensures ReadSolLine(SolLine(index, block), index2ID, m) ==
            Some(if index2ID[index] == 0 || index2ID[index] == 1 then m else Put(m, block, index2ID[index]))
  {
    hide SolLine, ReadSolLine, Put;
    SolLineIsVariable(index, block);
    VariableRead(SolLine(index, block), index, block, index2ID, m);
  }

  lemma CutThere(a: string, c: char, b: string)
    ensures c !in a ==> Before(a + ([c] + b), c) == a && After(a + ([c] + b), c) == b
  {
    assert a + ([c] + b) == a + [c] + b;
    if c !in a { CutAt(a, c, b); }
  }

  lemma OtherLine(line: string, index2ID: map<int, int>, m: Maps)
    requires '#' !in line
    ensures ReadSolLine(line, index2ID, m) == Some(m)
  {
    NoTextWithout(line, TAG, '#') by { assert TAG[17] == '#'; }
  }

  /** n files exactly the given data, each under its block (block 0 if it has none). */
  ghost predicate Filed(n: Maps, ids: set<int>, d2b: map<int, int>) {
    && Consistent(n) && n.data2Block.Keys == ids
    && forall d :: d in ids ==> n.data2Block[d] == BlockFor(d2b, d)
  }

  lemma PutFiled(n: Maps, ids: set<int>, d2b: map<int, int>, id: int)
    requires Filed(n, ids, d2b)
    ensures Filed(Put(n, BlockFor(d2b, id), id), ids + {id}, d2b)
  {
    PutKeeps(n, BlockFor(d2b, id), id);
  }

  lemma KnownOneMore(index2ID: map<int, int>, done: set<int>, i: int)
    requires i in index2ID
    ensures Known(index2ID, done + {i}) ==
            if index2ID[i] == 0 || index2ID[i] == 1 then Known(index2ID, done) else Known(index2ID, done) + {index2ID[i]}
  {
  }

  lemma {:induction false} VariablesReadBack(index2ID: map<int, int>, indices: set<int>, d2b: map<int, int>, lines: seq<string>, n: Maps)
    requires indices <= index2ID.Keys && Filed(n, Known(index2ID, index2ID.Keys - indices), d2b)
    requires forall i :: 0 <= i < |lines| ==> '#' !in lines[i]
    ensures var r := ReadSol(VariableLines(index2ID, indices, d2b) + lines, index2ID, n);
            r.Some? && Filed(r.value, Known(index2ID, index2ID.Keys), d2b)
    decreases indices
  {
    hide Filed, Known, ReadSolLine, SolLine, Put;
    if indices == {} {
      assert [] + lines == lines;
      assert index2ID.Keys - indices == index2ID.Keys;
      OtherLines(lines, index2ID, n);
    } else {
      var i := Least(indices);
      var id := index2ID[i];
      var rest := VariableLines(index2ID, indices - {i}, d2b);
      var line := SolLine(i, BlockFor(d2b, id));
      assert VariableLines(index2ID, indices, d2b) + lines == [line] + (rest + lines);
      SolLineReadBack(i, BlockFor(d2b, id), index2ID, n);
      var done := index2ID.Keys - indices;
      assert index2ID.Keys - (indices - {i}) == done + {i};
      KnownOneMore(index2ID, done, i);
      PutFiled(n, Known(index2ID, done), d2b, id);
      assert ([line] + (rest + lines))[1..] == rest + lines;
      VariablesReadBack(index2ID, indices - {i}, d2b, lines,
                        if id == 0 || id == 1 then n else Put(n, BlockFor(d2b, id), id));
    }
  }

  lemma {:induction false} OtherLines(lines: seq<string>, index2ID: map<int, int>, m: Maps)
    requires forall i :: 0 <= i < |lines| ==> '#' !in lines[i]
    ensures ReadSol(lines, index2ID, m) == Some(m)
  {
    if lines == [] {
    } else {
      OtherLine(lines[0], index2ID, m);
      OtherLines(lines[1..], index2ID, m);
    }
  }

  /** Lines in front that do not hold the tag are skipped. */
  lemma {:induction false} SkipTop(top: seq<string>, lines: seq<string>, index2ID: map<int, int>, m: Maps)
    requires forall i :: 0 <= i < |top| ==> FindText(top[i], TAG) < 0
    ensures ReadSol(top + lines, index2ID, m) == ReadSol(lines, index2ID, m)
  {
    if top == [] {
      assert top + lines == lines;
    } else {
      SkipTop(top[1..], lines, index2ID, m);
      assert (top + lines)[1..] == top[1..] + lines;
    }
  }

  lemma ProblemIsFourth(szFile: string)
    ensures |Top(szFile)| == 7 && Top(szFile)[3] == ProblemLine(szFile)
  {
  }

  lemma FirstLine()
    ensures '#' !in "<?xml version = \"1.0\" " && '#' !in "encoding=\"UTF-8\" " && '#' !in "standalone=\"yes\"?>"
  {
  }

  lemma SecondLine()
    ensures '#' !in "<CPLEXSolution version=\"1.2\">" && '#' !in "\t<header"
  {
  }

  lemma StatusLine()
    ensures '#' !in "\t\tsolutionStatusString=" && '#' !in "\"integer feasible solution\""
  {
  }

  lemma MethodLine()
    ensures '#' !in "\t\tsolutionMethodString=\"mip\"/>" && '#' !in "\t<variables>"
  {
  }

  lemma FixedLines(szFile: string)
    ensures forall i :: 0 <= i < |Top(szFile)| && i != 3 ==> '#' !in Top(szFile)[i]
  {
    FirstLine();
    SecondLine();
    StatusLine();
    MethodLine();
  }

  lemma TopHasNoTag(szFile: string)
    requires FindText(ProblemLine(szFile), TAG) < 0
    ensures forall i :: 0 <= i < |Top(szFile)| ==> FindText(Top(szFile)[i], TAG) < 0
  {
    hide FindText, ProblemLine, Top;
    ProblemIsFourth(szFile);
    assert TAG[17] == '#';
    FixedLines(szFile);
    forall i | 0 <= i < |Top(szFile)| && i != 3 ensures FindText(Top(szFile)[i], TAG) < 0 {
      NoTextWithout(Top(szFile)[i], TAG, '#');
    }
  }

  /** Writing a .sol file and reading it back files every datum of the numbering under its block. */
  lemma SolRoundTrip(szFile: string, index2ID: map<int, int>, d2b: map<int, int>)
    requires FindText(ProblemLine(szFile), TAG) < 0
    ensures var r := ReadSol(SolLines(szFile, index2ID, d2b) + [""], index2ID, NO_MAPS);
            r.Some? && Filed(r.value, Known(index2ID, index2ID.Keys), d2b)
  {
    hide ReadSol, FindText;
    var variables := VariableLines(index2ID, index2ID.Keys, d2b);
    var lines := Bottom() + [""];
    TopHasNoTag(szFile);
    SkipTop(Top(szFile), variables + lines, index2ID, NO_MAPS);
    assert SolLines(szFile, index2ID, d2b) + [""] == Top(szFile) + (variables + lines);
    assert index2ID.Keys - index2ID.Keys == {};
    assert Filed(NO_MAPS, Known(index2ID, {}), d2b);
    VariablesReadBack(index2ID, index2ID.Keys, d2b, lines, NO_MAPS);
  }

  // ----- what a .sol file says -----

  /** The variables of a file, in order, are the given pairs of index and block. */
  ghost predicate Assigns(lines: seq<string>, pairs: seq<(int, int)>) {
    if lines == [] then pairs == []
    else
      || (NoText(lines[0], "<variable name=\"x#") && Assigns(lines[1..], pairs))
      || (pairs != [] && IsVariable(lines[0], pairs[0].0, pairs[0].1) && Assigns(lines[1..], pairs[1..]))
  }

  /** The pair's index is that of datum d; data 0 and 1 are left aside. */
  predicate IsAbout(index2ID: map<int, int>, p: (int, int), d: int) {
    p.0 in index2ID && index2ID[p.0] == d && d != 0 && d != 1
  }

  predicate About(index2ID: map<int, int>, pairs: seq<(int, int)>, k: int, d: int) {
    0 <= k < |pairs| && IsAbout(index2ID, pairs[k], d)
  }

  predicate Says(index2ID: map<int, int>, pairs: seq<(int, int)>, k: int, d: int, block: int) {
    About(index2ID, pairs, k, d) && pairs[k].1 == block
  }

  /** It is the last pair about d. */
  ghost predicate LastAbout(index2ID: map<int, int>, pairs: seq<(int, int)>, k: int, d: int) {
    0 <= k < |pairs| && About(index2ID, pairs, k, d) && forall j :: k < j < |pairs| ==> !About(index2ID, pairs, j, d)
  }

  /** Each datum has the block of the last pair about it, and each block holds every datum that some
      pair has put there. */
  ghost predicate FiledBy(n: Maps, index2ID: map<int, int>, pairs: seq<(int, int)>) {
    && (forall d :: d in n.data2Block <==> exists k :: About(index2ID, pairs, k, d))
    && (forall k, d :: LastAbout(index2ID, pairs, k, d) ==> d in n.data2Block && n.data2Block[d] == pairs[k].1)
    && (forall b, d :: d in Members(n, b) <==> exists k :: Says(index2ID, pairs, k, d, b))
    && forall b :: b in n.block2Data ==> n.block2Data[b] != {}
  }

  lemma NothingFiled(index2ID: map<int, int>)
    ensures FiledBy(NO_MAPS, index2ID, [])
  {
  }

  lemma AboutAppended(index2ID: map<int, int>, pairs: seq<(int, int)>, p: (int, int), k: int, d: int)
    ensures About(index2ID, pairs + [p], k, d) <==> About(index2ID, pairs, k, d) || (k == |pairs| && IsAbout(index2ID, p, d))
  {
  }

  lemma SomeAbout(index2ID: map<int, int>, pairs: seq<(int, int)>, p: (int, int), d: int)
    ensures (exists k :: About(index2ID, pairs + [p], k, d)) <==>
            (exists k :: About(index2ID, pairs, k, d)) || IsAbout(index2ID, p, d)
  {
    hide About, IsAbout;
    forall k ensures About(index2ID, pairs + [p], k, d) <==> About(index2ID, pairs, k, d) || (k == |pairs| && IsAbout(index2ID, p, d)) {
      AboutAppended(index2ID, pairs, p, k, d);
    }
    assert About(index2ID, pairs + [p], |pairs|, d) <==> About(index2ID, pairs, |pairs|, d) || IsAbout(index2ID, p, d);
  }

  lemma SomeSays(index2ID: map<int, int>, pairs: seq<(int, int)>, p: (int, int), d: int, b: int)
    ensures (exists k :: Says(index2ID, pairs + [p], k, d, b)) <==>
            (exists k :: Says(index2ID, pairs, k, d, b)) || (IsAbout(index2ID, p, d) && p.1 == b)
  {
    hide Says, IsAbout;
    forall k ensures Says(index2ID, pairs + [p], k, d, b) <==>
                     Says(index2ID, pairs, k, d, b) || (k == |pairs| && IsAbout(index2ID, p, d) && p.1 == b) {
      SaysAppended(index2ID, pairs, p, k, d, b);
    }
    assert Says(index2ID, pairs + [p], |pairs|, d, b) <==>
           Says(index2ID, pairs, |pairs|, d, b) || (IsAbout(index2ID, p, d) && p.1 == b);
  }

  lemma SaysAppended(index2ID: map<int, int>, pairs: seq<(int, int)>, p: (int, int), k: int, d: int, b: int)
    ensures Says(index2ID, pairs + [p], k, d, b) <==>
            Says(index2ID, pairs, k, d, b) || (k == |pairs| && IsAbout(index2ID, p, d) && p.1 == b)
  {
  }

  lemma LastAppended(index2ID: map<int, int>, pairs: seq<(int, int)>, p: (int, int), k: int, d: int)
    requires LastAbout(index2ID, pairs + [p], k, d)
    ensures if IsAbout(index2ID, p, d) then k == |pairs| else 0 <= k < |pairs| && LastAbout(index2ID, pairs, k, d)
  {
    hide About, IsAbout;
    forall j ensures About(index2ID, pairs + [p], j, d) <==> About(index2ID, pairs, j, d) || (j == |pairs| && IsAbout(index2ID, p, d)) {
      AboutAppended(index2ID, pairs, p, j, d);
    }
    InsidePairs(index2ID, pairs, k, d);
    InsidePairs(index2ID, pairs + [p], k, d);
    assert About(index2ID, pairs + [p], |pairs|, d) <==> About(index2ID, pairs, |pairs|, d) || IsAbout(index2ID, p, d);
  }

  lemma InsidePairs(index2ID: map<int, int>, pairs: seq<(int, int)>, k: int, d: int)
    ensures About(index2ID, pairs, k, d) ==> 0 <= k < |pairs|
  {
  }

  lemma FileOneIs(n: Maps, index2ID: map<int, int>, p: (int, int), b: int, d: int)
    ensures var m := FileOne(n, index2ID, p.0, p.1);
            && (d in m.data2Block <==> d in n.data2Block || IsAbout(index2ID, p, d))
            && (d in m.data2Block ==> m.data2Block[d] == if IsAbout(index2ID, p, d) then p.1 else n.data2Block[d])
            && (d in Members(m, b) <==> d in Members(n, b) || (IsAbout(index2ID, p, d) && p.1 == b))
            && (b in m.block2Data && (b in n.block2Data ==> n.block2Data[b] != {}) ==> m.block2Data[b] != {})
  {
  }

  lemma FiledOneMore(n: Maps, index2ID: map<int, int>, pairs: seq<(int, int)>, p: (int, int))
    requires FiledBy(n, index2ID, pairs)
    ensures FiledBy(FileOne(n, index2ID, p.0, p.1), index2ID, pairs + [p])
  {
    hide FileOne, Members, About, Says, IsAbout;
    var m := FileOne(n, index2ID, p.0, p.1);
    forall d ensures d in m.data2Block <==> exists k :: About(index2ID, pairs + [p], k, d) {
      FileOneIs(n, index2ID, p, 0, d);
      SomeAbout(index2ID, pairs, p, d);
    }
    forall b, d ensures d in Members(m, b) <==> exists k :: Says(index2ID, pairs + [p], k, d, b) {
      FileOneIs(n, index2ID, p, b, d);
      SomeSays(index2ID, pairs, p, d, b);
    }
    forall k, d | LastAbout(index2ID, pairs + [p], k, d) ensures d in m.data2Block && m.data2Block[d] == (pairs + [p])[k].1 {
      FileOneIs(n, index2ID, p, 0, d);
      LastAppended(index2ID, pairs, p, k, d);
    }
    forall b | b in m.block2Data ensures m.block2Data[b] != {} { FileOneIs(n, index2ID, p, b, 0); }
  }

  /** Reading any file, behind what has been read before, files its pairs. */
  lemma {:induction false} SolFilesPairs(lines: seq<string>, pairs: seq<(int, int)>, index2ID: map<int, int>, m: Maps, done: seq<(int, int)>)
    requires Assigns(lines, pairs) && FiledBy(m, index2ID, done)
    ensures ReadSol(lines, index2ID, m).Some? && FiledBy(ReadSol(lines, index2ID, m).value, index2ID, done + pairs)
  {
    hide ReadSolLine, FiledBy, IsVariable, NoText, FileOne;
    if lines == [] {
      assert done + pairs == done;
    } else if NoText(lines[0], TAG) && Assigns(lines[1..], pairs) {
      NoTagLine(lines[0], index2ID, m);
      SolFilesPairs(lines[1..], pairs, index2ID, m, done);
    } else {
      var p := pairs[0];
      VariableRead(lines[0], p.0, p.1, index2ID, m);
      FiledOneMore(m, index2ID, done, p);
      SolFilesPairs(lines[1..], pairs[1..], index2ID, FileOne(m, index2ID, p.0, p.1), done + [p]);
      assert done + [p] + pairs[1..] == done + pairs;
    }
  }

  lemma SolFromStart(lines: seq<string>, pairs: seq<(int, int)>, index2ID: map<int, int>)
    requires Assigns(lines, pairs)
    ensures ReadSol(lines, index2ID, NO_MAPS).Some? && FiledBy(ReadSol(lines, index2ID, NO_MAPS).value, index2ID, pairs)
  {
    hide Assigns, FiledBy;
    NothingFiled(index2ID);
    SolFilesPairs(lines, pairs, index2ID, NO_MAPS, []);
    assert [] + pairs == pairs;
  }

  lemma NoTagLine(line: string, index2ID: map<int, int>, m: Maps)
    requires NoText(line, TAG)
    ensures ReadSolLine(line, index2ID, m) == Some(m)
  {
    NotFound(line, TAG);
  }

  // ----- both ways -----

  /** From the maps of a solution, over an .alloc file, to a .sol file and back to maps. */
  ghost function Converted(szFile: string, index2ID: map<int, int>, m: Maps): Option<Maps>
    requires NoneEmpty(m.block2Data)
  {
    match ReadAlloc(AllocLines(m.block2Data) + [""], -1, NO_MAPS)
    case None => None
    case Some(n) => ReadSol(SolLines(szFile, index2ID, n.data2Block) + [""], index2ID, NO_MAPS)
  }

  /** Converting a consistent solution both ways keeps the block of every datum, up to the rank of
      block numbers. The result is exactly the renumbered solution if and only if the solution had a
      block for every known datum: the others turn up in block 0. */
  lemma ConverterRoundTrip(szFile: string, index2ID: map<int, int>, m: Maps)
    requires Consistent(m) && m.data2Block.Keys <= Known(index2ID, index2ID.Keys)
    requires FindText(ProblemLine(szFile), TAG) < 0
    ensures NoneEmpty(m.block2Data) && Converted(szFile, index2ID, m).Some?
    ensures var n := Converted(szFile, index2ID, m).value;
            && Consistent(n) && n.data2Block.Keys == Known(index2ID, index2ID.Keys)
            && (forall d :: d in m.data2Block ==> n.data2Block[d] == Rank(m.block2Data.Keys, m.data2Block[d]))
            && (forall d :: d in n.data2Block && d !in m.data2Block ==> n.data2Block[d] == 0)
            && (IsRenumbered(m, n) <==> m.data2Block.Keys == Known(index2ID, index2ID.Keys))
  {
    hide ReadAlloc, ReadSol, FindText, Rank, Consistent, Known;
    AllocRoundTrip(m);
    var n := ReadAlloc(AllocLines(m.block2Data) + [""], -1, NO_MAPS).value;
    SolRoundTrip(szFile, index2ID, n.data2Block);
  }

  /** What reading keeps even if the file puts a datum into two blocks. */
  ghost predicate Linked(m: Maps, ids: set<int>) {
    && m.data2Block.Keys <= ids
    && (forall d :: d in m.data2Block ==> m.data2Block[d] in m.block2Data && d in m.block2Data[m.data2Block[d]])
    && forall b :: b in m.block2Data ==> m.block2Data[b] != {} && m.block2Data[b] <= m.data2Block.Keys
  }

  ghost predicate OneBlockEach(m: Maps) {
    forall b, c, d :: b in m.block2Data && c in m.block2Data && d in m.block2Data[b] && d in m.block2Data[c] ==> b == c
  }

  lemma PutLinked(m: Maps, ids: set<int>, block: int, data: int)
    requires Linked(m, ids) && data in ids
    ensures Linked(Put(m, block, data), ids)
  {
  }

  /** The maps read from any .sol file are consistent, and so ready for the round trip, exactly when
      the file puts no datum into two blocks. */
  lemma {:induction false} ReadSolFiles(lines: seq<string>, index2ID: map<int, int>, m: Maps)
    requires Linked(m, Known(index2ID, index2ID.Keys))
    ensures var r := ReadSol(lines, index2ID, m);
            r.Some? ==>
              Linked(r.value, Known(index2ID, index2ID.Keys)) && (Consistent(r.value) <==> OneBlockEach(r.value))
  {
    if lines == [] {
      LinkedOnce(m, Known(index2ID, index2ID.Keys));
    } else {
      hide Linked, Put, Consistent, OneBlockEach;
      var r := ReadSolLine(lines[0], index2ID, m);
      if r.Some? {
        LineKeepsLinks(lines[0], index2ID, m);
        ReadSolFiles(lines[1..], index2ID, r.value);
      }
    }
  }

  lemma LineKeepsLinks(line: string, index2ID: map<int, int>, m: Maps)
    requires Linked(m, Known(index2ID, index2ID.Keys))
    ensures var r := ReadSolLine(line, index2ID, m); r.Some? ==> Linked(r.value, Known(index2ID, index2ID.Keys))
  {
    hide Linked, Put, Before, After, FindText, ParseInt;
    forall block, id | id in Known(index2ID, index2ID.Keys) ensures Linked(Put(m, block, id), Known(index2ID, index2ID.Keys)) {
      PutLinked(m, Known(index2ID, index2ID.Keys), block, id);
    }
  }

  lemma LinkedOnce(m: Maps, ids: set<int>)
    requires Linked(m, ids)
    ensures Consistent(m) <==> OneBlockEach(m)
  {
    if OneBlockEach(m) {
      forall b, d | b in m.block2Data && d in m.block2Data[b] ensures m.data2Block[d] == b {
        assert d in m.block2Data[m.data2Block[d]];
      }
    }
  }
}
