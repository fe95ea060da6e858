/** The names, the search and the table agree: a printed column name finds
    exactly the cell under it. */
module TracePaths {
  import opened Words
  import opened Ops
  import opened DottedPaths
  import opened TraceTable

  /** The path of trace `i` as source indices, or none if it hangs off a parent
      that was never seen. */
  function NumPath(traces: seq<RainSourceTrace>, i: nat): (path: Option<seq<nat>>)
    requires i < |traces|
    ensures path.Some? ==> path.value != [] && path.value[|path.value| - 1] == traces[i].sourceIndex
    decreases i
  {
    var t := traces[i];
    if t.parentSourceIndex == t.sourceIndex then Some([t.sourceIndex])
    else
      var recent := MostRecent(traces, i, t.parentSourceIndex);
      if recent.None? || NumPath(traces, recent.value).None? then None
      else Some(NumPath(traces, recent.value).value + [t.sourceIndex as nat])
  }

  /** `s` starts with a question-marked index. */
  ghost predicate Fallback(s: string) {
    exists n: nat :: Show(n) + "?" <= s
  }

  lemma {:induction false} PathIsJoin(traces: seq<RainSourceTrace>, i: nat)
    requires i < |traces|
    ensures match NumPath(traces, i)
            case Some(path) => PathString(traces, i) == Join(path)
            case None => Fallback(PathString(traces, i))
  {
    var t := traces[i];
    if t.parentSourceIndex != t.sourceIndex {
      var recent := MostRecent(traces, i, t.parentSourceIndex);
      match recent
      case None =>
        assert Show(t.parentSourceIndex) + "?" <= PathString(traces, i);
      case Some(j) =>
        PathIsJoin(traces, j);
        if NumPath(traces, j).Some? {
          var path := NumPath(traces, j).value + [t.sourceIndex as nat];
          assert path[..|path| - 1] == NumPath(traces, j).value;
        } else {
          var n: nat :| Show(n) + "?" <= PathString(traces, j);
          assert Show(n) + "?" <= PathString(traces, i);
        }
    }
  }

  /** A path's steps are edges of traces, and it ends on its own trace's edge. */
  lemma {:induction false} PathEdges(traces: seq<RainSourceTrace>, i: nat)
    requires i < |traces| && NumPath(traces, i).Some?
    ensures EdgesExist(traces, NumPath(traces, i).value)
    ensures LastEdge(NumPath(traces, i).value[0], NumPath(traces, i).value)
         == (traces[i].parentSourceIndex as nat, traces[i].sourceIndex as nat)
    ensures forall j | 0 <= j < |NumPath(traces, i).value| :: NumPath(traces, i).value[j] <= U16_MAX
  {
    var t := traces[i];
    if t.parentSourceIndex != t.sourceIndex {
      var j := MostRecent(traces, i, t.parentSourceIndex).value;
      PathEdges(traces, j);
      var shorter, path := NumPath(traces, j).value, NumPath(traces, i).value;
      var n := |shorter|;
      assert shorter[n - 1] == t.parentSourceIndex;
      assert HasEdge(traces, path[n - 1], path[n]);
      forall m | 0 <= m < n
        ensures HasEdge(traces, path[m], path[m + 1])
      {
        if m < n - 1 {
          assert HasEdge(traces, shorter[m], shorter[m + 1]);
        }
      }
    }
  }

  // ----- one name -----

  lemma {:induction false} ParseShown(path: seq<nat>)
    requires forall j | 0 <= j < |path| :: path[j] <= U16_MAX
    ensures ParseAll(ShowAll(path)) == Some(path)
  {
    if path == [] {
    } else {
      assert ShowAll(path)[1..] == ShowAll(path[1..]);
      ParseShown(path[1..]);
      ParseShow(path[0], U16_MAX);
      assert [path[0]] + path[1..] == path;
    }
  }

  /** A printed name parses back to the path and item it was printed from. */
  lemma ParsePrinted(path: seq<nat>, k: nat)
    requires path != [] && k <= USIZE_MAX
    requires forall j | 0 <= j < |path| :: path[j] <= U16_MAX
    ensures ParsePath(Join(path) + "." + Show(k)) == Some((path, k))
  {
    SplitDot(Join(path), Show(k));
    SplitJoin(path);
    ShowPlain(k);
    SplitWhole(Show(k));
    var parts := Split(Join(path) + "." + Show(k));
    assert parts[..|parts| - 1] == ShowAll(path);
    ParseShown(path);
    ParseShow(k, USIZE_MAX);
  }

  /** A path that starts with a question-marked index is refused outright. */
  lemma FallbackRefused(traces: seq<RainSourceTrace>, path: string, k: nat)
    requires Fallback(path)
    ensures Search(traces, path + "." + Show(k)) == Err(BadTracePath(path + "." + Show(k)))
  {
    var n: nat :| Show(n) + "?" <= path;
    var a := Show(n) + "?";
    ShowPlain(n);
    SplitFirst(a, path[|a|..]);
    assert path == a + path[|a|..];
    SplitDot(path, Show(k));
    var first := Split(path)[0];
    assert first[|a| - 1] == first[..|a|][|a| - 1] == '?';
    QuestionUnparseable(first, |a| - 1, U16_MAX);
    ShowPlain(k);
    SplitWhole(Show(k));
  }

  ghost predicate DistinctEdges(traces: seq<RainSourceTrace>) {
    forall i, j | 0 <= i < j < |traces| ::
      !(traces[i].parentSourceIndex == traces[j].parentSourceIndex && traces[i].sourceIndex == traces[j].sourceIndex)
  }

  ghost predicate CountableStacks(traces: seq<RainSourceTrace>) {
    forall i | 0 <= i < |traces| :: |traces[i].stack| <= USIZE_MAX
  }

  /** Searching for item `k` of trace `i` by its printed name finds item `k` of the
      first trace with the same edge, if that trace has one, and nothing else. */
  lemma NameFindsFirst(traces: seq<RainSourceTrace>, i: nat, k: nat, w: Word)
    requires CountableStacks(traces) && i < |traces| && k <= USIZE_MAX && NumPath(traces, i).Some?
    ensures var first := FirstWithEdge(traces, traces[i].parentSourceIndex, traces[i].sourceIndex);
            && first.Some? && first.value <= i
            && var stack := traces[first.value].stack;
               Search(traces, PathString(traces, i) + "." + Show(k)) == Ok(w)
               <==> k < |stack| && w == stack[|stack| - 1 - k]
  {
    hide Search, NumPath, PathString, ParsePath, LastEdge, Show;
    var path := NumPath(traces, i).value;
    PathIsJoin(traces, i);
    PathEdges(traces, i);
    ParsePrinted(path, k);
    assert HasEdge(traces, traces[i].parentSourceIndex, traces[i].sourceIndex);
    SearchExact(traces, Join(path) + "." + Show(k), w);
  }

  /** Where edges do not repeat, that is item `k` of trace `i` itself. */
  lemma NameFindsItem(traces: seq<RainSourceTrace>, i: nat, k: nat)
    requires DistinctEdges(traces) && CountableStacks(traces)
    requires i < |traces| && k < |traces[i].stack|
    ensures Search(traces, PathString(traces, i) + "." + Show(k)) ==
              if NumPath(traces, i).Some? then Ok(traces[i].stack[|traces[i].stack| - 1 - k])
              else Err(BadTracePath(PathString(traces, i) + "." + Show(k)))
  {
    hide Search, NumPath, PathString, Show;
    if NumPath(traces, i).Some? {
      NameFindsFirst(traces, i, k, traces[i].stack[|traces[i].stack| - 1 - k]);
    } else {
      PathIsJoin(traces, i);
      FallbackRefused(traces, PathString(traces, i), k);
    }
  }

  /** Only fallback names contain a question mark. */
  lemma QuestionMarks(traces: seq<RainSourceTrace>, i: nat, k: nat)
    requires i < |traces|
    ensures '?' in PathString(traces, i) + "." + Show(k) <==> NumPath(traces, i).None?
  {
    PathIsJoin(traces, i);
    ShowPlain(k);
    if NumPath(traces, i).Some? {
      JoinPlain(NumPath(traces, i).value);
    } else {
      var n: nat :| Show(n) + "?" <= PathString(traces, i);
      assert PathString(traces, i)[|Show(n)|] == '?';
    }
  }

  // ----- the table -----

  datatype RainEvalResult = RainEvalResult(reverted: bool, stack: seq<Word>, writes: seq<Word>, traces: seq<RainSourceTrace>)

  datatype RainEvalResultsTable = RainEvalResultsTable(columnNames: seq<string>, rows: seq<seq<Word>>)

  /** The items of the first `n` traces, each stack from its bottom up. */
  function Cells(traces: seq<RainSourceTrace>, n: nat): seq<Word>
    requires n <= |traces|
  {
    if n == 0 then [] else Cells(traces, n - 1) + Reverse(traces[n - 1].stack)
  }

  function Row(result: RainEvalResult): seq<Word> {
    Cells(result.traces, |result.traces|)
  }

  function IntoFlattenedTable(results: seq<RainEvalResult>): RainEvalResultsTable {
    if results == [] then RainEvalResultsTable([], [])
    else
      RainEvalResultsTable(ColumnNames(results[0].traces, |results[0].traces|),
                           seq(|results|, r requires 0 <= r < |results| => Row(results[r])))
  }

  lemma CellsStep(traces: seq<RainSourceTrace>, n: nat)
    requires n < |traces|
    ensures Cells(traces, n + 1) == Cells(traces, n) + Reverse(traces[n].stack)
  {
    hide Reverse;
  }

  /** The columns of trace `n` come after those of the traces before it, one for
      each item from the bottom up. */
  lemma ColumnOfTrace(traces: seq<RainSourceTrace>, n: nat, k: nat)
    requires n < |traces| && k < |traces[n].stack|
    requires |Cells(traces, n)| == |ColumnNames(traces, n)|
    ensures var before := |ColumnNames(traces, n)|;
            && before + k < |ColumnNames(traces, n + 1)| && before + k < |Cells(traces, n + 1)|
            && ColumnNames(traces, n + 1)[before + k] == PathString(traces, n) + "." + Show(k)
            && Cells(traces, n + 1)[before + k] == traces[n].stack[|traces[n].stack| - 1 - k]
  {
    hide PathString, Show, MostRecent, ColumnNames, Cells;
    NamesStep(traces, n);
    CellsStep(traces, n);
  }

  /** Column `o` of the first `n` traces is item `k` of trace `i`, in name and in
      value. */
  lemma {:induction false} ColumnIsItem(traces: seq<RainSourceTrace>, n: nat, o: nat) returns (i: nat, k: nat)
    requires n <= |traces| && o < |ColumnNames(traces, n)|
    ensures |Cells(traces, n)| == |ColumnNames(traces, n)|
    ensures i < n && k < |traces[i].stack| && o == |ColumnNames(traces, i)| + k
    ensures ColumnNames(traces, n)[o] == PathString(traces, i) + "." + Show(k)
    ensures Cells(traces, n)[o] == traces[i].stack[|traces[i].stack| - 1 - k]
  {
    hide PathString, Show, ColumnNames, Cells, MostRecent;
    CellsMatchNames(traces, n);
    NoNames(traces);
    NamesStep(traces, n - 1);
    CellsStep(traces, n - 1);
    CellsMatchNames(traces, n - 1);
    var before := |ColumnNames(traces, n - 1)|;
    if o < before {
      i, k := ColumnIsItem(traces, n - 1, o);
    } else {
      i, k := n - 1, o - before;
      ColumnOfTrace(traces, i, k);
    }
  }

  lemma {:induction false} CellsMatchNames(traces: seq<RainSourceTrace>, n: nat)
    requires n <= |traces|
    ensures |Cells(traces, n)| == |ColumnNames(traces, n)|
  {
    if n == 0 {
    } else {
      CellsMatchNames(traces, n - 1);
    }
  }

  ghost predicate SameShape(a: seq<RainSourceTrace>, b: seq<RainSourceTrace>) {
    && |a| == |b|
    && forall i | 0 <= i < |a| ::
         && a[i].parentSourceIndex == b[i].parentSourceIndex
         && a[i].sourceIndex == b[i].sourceIndex
         && |a[i].stack| == |b[i].stack|
  }

  lemma {:induction false} SameMostRecent(a: seq<RainSourceTrace>, b: seq<RainSourceTrace>, n: nat, s: nat)
    requires SameShape(a, b) && n <= |a|
    ensures MostRecent(a, n, s) == MostRecent(b, n, s)
  {
    if n == 0 {
    } else {
      SameMostRecent(a, b, n - 1, s);
    }
  }

  lemma {:induction false} SamePath(a: seq<RainSourceTrace>, b: seq<RainSourceTrace>, i: nat)
    requires SameShape(a, b) && i < |a|
    ensures PathString(a, i) == PathString(b, i)
  {
    SameMostRecent(a, b, i, a[i].parentSourceIndex);
    if a[i].parentSourceIndex != a[i].sourceIndex && MostRecent(a, i, a[i].parentSourceIndex).Some? {
      SamePath(a, b, MostRecent(a, i, a[i].parentSourceIndex).value);
    }
  }

  /** Column names depend only on the shape of the traces. */
  lemma {:induction false} SameNames(a: seq<RainSourceTrace>, b: seq<RainSourceTrace>, n: nat)
    requires SameShape(a, b) && n <= |a|
    ensures ColumnNames(a, n) == ColumnNames(b, n)
  {
    hide ColumnNames, PathString, ItemNames;
    if n == 0 {
      NoNames(a);
      NoNames(b);
    } else {
      NamesStep(a, n - 1);
      NamesStep(b, n - 1);
      SameNames(a, b, n - 1);
      SamePath(a, b, n - 1);
    }
  }

  lemma {:induction false} ColumnsGrow(traces: seq<RainSourceTrace>, i: nat, n: nat)
    requires i < n <= |traces|
    ensures |ColumnNames(traces, i + 1)| <= |ColumnNames(traces, n)| && |Cells(traces, i + 1)| <= |Cells(traces, n)|
    ensures ColumnNames(traces, n)[..|ColumnNames(traces, i + 1)|] == ColumnNames(traces, i + 1)
    ensures Cells(traces, n)[..|Cells(traces, i + 1)|] == Cells(traces, i + 1)
    decreases n
  {
    hide ColumnNames, Cells, PathString, ItemNames;
    if n == i + 1 {
      assert ColumnNames(traces, n)[..|ColumnNames(traces, n)|] == ColumnNames(traces, n);
      assert Cells(traces, n)[..|Cells(traces, n)|] == Cells(traces, n);
    } else {
      ColumnsGrow(traces, i, n - 1);
      NamesStep(traces, n - 1);
      CellsStep(traces, n - 1);
    }
  }

  /** Item `k` of trace `i` has the column right after those of the traces before it
      and the items under it, in every result with the first result's sequence of
      edges and stack lengths: the column's name is the trace's path and `k`, and the
      cell under it is the item that is `k` up from the bottom. */
  lemma ItemHasColumn(results: seq<RainEvalResult>, r: nat, i: nat, k: nat)
    requires r < |results| && SameShape(results[r].traces, results[0].traces)
    requires i < |results[r].traces| && k < |results[r].traces[i].stack|
    ensures var traces, table := results[r].traces, IntoFlattenedTable(results);
            var o := |ColumnNames(traces, i)| + k;
            && o < |table.columnNames| && o < |table.rows[r]|
            && table.columnNames[o] == PathString(traces, i) + "." + Show(k)
            && table.rows[r][o] == traces[i].stack[|traces[i].stack| - 1 - k]
  {
    hide ColumnNames, Cells, PathString, Show, SameShape;
    var traces := results[r].traces;
    SameLength(traces, results[0].traces);
    SameNames(traces, results[0].traces, |traces|);
    CellsMatchNames(traces, i);
    ColumnOfTrace(traces, i, k);
    ColumnsGrow(traces, i, |traces|);
    var o := |ColumnNames(traces, i)| + k;
    var names, cells := ColumnNames(traces, |traces|), Cells(traces, |traces|);
    assert names[..|ColumnNames(traces, i + 1)|][o] == names[o] && cells[..|Cells(traces, i + 1)|][o] == cells[o];
  }

  /** Whatever its shape, a result's row is its own items and nothing else, trace by
      trace and each stack from the bottom. */
  lemma RowIsItems(results: seq<RainEvalResult>, r: nat, i: nat, k: nat)
    requires r < |results|
    ensures var traces, row := results[r].traces, IntoFlattenedTable(results).rows[r];
            && |row| == |ColumnNames(traces, |traces|)|
            && (i < |traces| && k < |traces[i].stack| ==>
                  && |ColumnNames(traces, i)| + k < |row|
                  && row[|ColumnNames(traces, i)| + k] == traces[i].stack[|traces[i].stack| - 1 - k])
  {
    hide ColumnNames, Cells;
    var traces := results[r].traces;
    CellsMatchNames(traces, |traces|);
    if i < |traces| && k < |traces[i].stack| {
      CellsMatchNames(traces, i);
      ColumnOfTrace(traces, i, k);
      ColumnsGrow(traces, i, |traces|);
      var o := |ColumnNames(traces, i)| + k;
      assert Cells(traces, |traces|)[..|Cells(traces, i + 1)|][o] == Cells(traces, |traces|)[o];
    }
  }

  /** And there are no other columns: such a result has one cell per column, and
      every column is the column of one item. */
  lemma TableAligned(results: seq<RainEvalResult>, r: nat, o: nat) returns (i: nat, k: nat)
    requires r < |results| && SameShape(results[r].traces, results[0].traces)
    requires o < |IntoFlattenedTable(results).columnNames|
    ensures |IntoFlattenedTable(results).rows[r]| == |IntoFlattenedTable(results).columnNames|
    ensures i < |results[r].traces| && k < |results[r].traces[i].stack|
    ensures o == |ColumnNames(results[r].traces, i)| + k
    ensures IntoFlattenedTable(results).columnNames[o] == PathString(results[r].traces, i) + "." + Show(k)
    ensures var stack := results[r].traces[i].stack;
            IntoFlattenedTable(results).rows[r][o] == stack[|stack| - 1 - k]
  {
    hide ColumnNames, Cells, PathString, Show, SameShape;
    var traces := results[r].traces;
    SameLength(traces, results[0].traces);
    SameNames(traces, results[0].traces, |traces|);
    CellsMatchNames(traces, |traces|);
    i, k := ColumnIsItem(traces, |traces|, o);
  }

  lemma SameLength(a: seq<RainSourceTrace>, b: seq<RainSourceTrace>)
    requires SameShape(a, b)
    ensures |a| == |b|
  {}

  /** A table has one row for each result, and no columns where there are no results. */
  lemma TableHasRows(results: seq<RainEvalResult>)
    ensures |IntoFlattenedTable(results).rows| == |results|
    ensures results == [] ==> IntoFlattenedTable(results).columnNames == []
  {}

  /** A row of that shape has as many cells as there are columns, even when there
      are none. */
  lemma RowsAligned(results: seq<RainEvalResult>, r: nat)
    requires r < |results| && SameShape(results[r].traces, results[0].traces)
    ensures |IntoFlattenedTable(results).rows[r]| == |IntoFlattenedTable(results).columnNames|
  {
    SameNames(results[r].traces, results[0].traces, |results[r].traces|);
    CellsMatchNames(results[r].traces, |results[r].traces|);
  }

  /** Searching such a result for a column's name returns the cell under it exactly
      when the first trace with the column's edge has that same item, which is
      always so where edges do not repeat. A name that carries the fallback mark is
      refused. */
  lemma ColumnSearchIsExact(results: seq<RainEvalResult>, r: nat, o: nat) returns (i: nat, k: nat)
    requires r < |results| && SameShape(results[r].traces, results[0].traces)
    requires CountableStacks(results[r].traces)
    requires o < |IntoFlattenedTable(results).columnNames|
    ensures |IntoFlattenedTable(results).rows[r]| == |IntoFlattenedTable(results).columnNames|
    ensures i < |results[r].traces|
    ensures var name, cell := IntoFlattenedTable(results).columnNames[o], IntoFlattenedTable(results).rows[r][o];
            && name == PathString(results[r].traces, i) + "." + Show(k)
            && ('?' in name ==> Search(results[r].traces, name) == Err(BadTracePath(name)))
            && ('?' !in name ==>
                  (Search(results[r].traces, name) == Ok(cell) <==> FirstHasItem(results[r].traces, i, k, cell)))
    ensures DistinctEdges(results[r].traces) ==>
              FirstHasItem(results[r].traces, i, k, IntoFlattenedTable(results).rows[r][o])
  {
    hide ColumnNames, Cells, Search, PathString, Show, SameShape, CountableStacks, FirstHasItem, NumPath;
    i, k := TableAligned(results, r, o);
    var traces, cell := results[r].traces, IntoFlattenedTable(results).rows[r][o];
    StackIndexFits(traces, i, k);
    QuestionMarks(traces, i, k);
    if NumPath(traces, i).Some? {
      NameFindsFirst(traces, i, k, cell);
      FirstItem(traces, i, k, cell);
    } else {
      PathIsJoin(traces, i);
      FallbackRefused(traces, PathString(traces, i), k);
    }
    if DistinctEdges(traces) {
      FirstIsItself(traces, i, k, cell);
    }
  }

  /** The first trace with the edge of trace `i` has `w` as its item `k`. */
  predicate FirstHasItem(traces: seq<RainSourceTrace>, i: nat, k: nat, w: Word)
    requires i < |traces|
  {
    var first := FirstWithEdge(traces, traces[i].parentSourceIndex, traces[i].sourceIndex);
    && first.Some?
    && var stack := traces[first.value].stack;
       k < |stack| && w == stack[|stack| - 1 - k]
  }

  lemma FirstItem(traces: seq<RainSourceTrace>, i: nat, k: nat, w: Word)
    requires i < |traces|
    ensures var first := FirstWithEdge(traces, traces[i].parentSourceIndex, traces[i].sourceIndex);
            FirstHasItem(traces, i, k, w) <==>
            && first.Some?
            && var stack := traces[first.value].stack;
               k < |stack| && w == stack[|stack| - 1 - k]
  {}

  lemma FirstIsItself(traces: seq<RainSourceTrace>, i: nat, k: nat, w: Word)
    requires DistinctEdges(traces) && i < |traces| && k < |traces[i].stack|
    requires w == traces[i].stack[|traces[i].stack| - 1 - k]
    ensures FirstHasItem(traces, i, k, w)
  {
    assert HasEdge(traces, traces[i].parentSourceIndex, traces[i].sourceIndex);
  }

  lemma StackIndexFits(traces: seq<RainSourceTrace>, i: nat, k: nat)
    requires CountableStacks(traces) && i < |traces| && k < |traces[i].stack|
    ensures k <= USIZE_MAX
  {}

  /** A result in which one parent called source 1 twice, with different results: the
      name of the second call's column finds the first call's value. */
  lemma RepeatedEdgeMisleads()
    ensures var root, first, second := RainSourceTrace(0, 0, []), RainSourceTrace(0, 1, [5]), RainSourceTrace(0, 1, [7]);
            var result := RainEvalResult(false, [], [], [root, first, second]);
            var table := IntoFlattenedTable([result]);
            && |table.columnNames| == |table.rows[0]| == 2
            && table.columnNames[1] == PathString(result.traces, 2) + "." + Show(0)
            && table.rows[0][1] == 7
            && Search(result.traces, table.columnNames[1]) == Ok(5)
  {
    hide PathString, Show, Search, ColumnNames, Cells, NumPath;
    var root, first, second := RainSourceTrace(0, 0, []), RainSourceTrace(0, 1, [5]), RainSourceTrace(0, 1, [7]);
    var result := RainEvalResult(false, [], [], [root, first, second]);
    RepeatedTraces(result.traces);
    ItemHasColumn([result], 0, 2, 0);
    NameFindsFirst(result.traces, 2, 0, 5);
  }

  lemma RepeatedTraces(traces: seq<RainSourceTrace>)
    requires traces == [RainSourceTrace(0, 0, []), RainSourceTrace(0, 1, [5]), RainSourceTrace(0, 1, [7])]
    ensures |ColumnNames(traces, 2)| == 1 && |ColumnNames(traces, 3)| == |Cells(traces, 3)| == 2
    ensures FirstWithEdge(traces, 0, 1) == Some(1)
    ensures NumPath(traces, 2).Some?
  {
    hide PathString, Show;
    NoNames(traces);
    NamesStep(traces, 0);
    NamesStep(traces, 1);
    NamesStep(traces, 2);
    CellsMatchNames(traces, 3);
    assert HasEdge(traces, traces[1].parentSourceIndex, traces[1].sourceIndex);
    assert MostRecent(traces, 1, 0) == Some(0);
    assert MostRecent(traces, 2, 0) == Some(0);
    assert NumPath(traces, 0) == Some([0]);
  }

  /** With distinct edges the search and the table agree outright. */
  lemma TableAgreesWithSearch(results: seq<RainEvalResult>, r: nat, o: nat)
    requires r < |results| && SameShape(results[r].traces, results[0].traces)
    requires DistinctEdges(results[r].traces) && CountableStacks(results[r].traces)
    requires o < |IntoFlattenedTable(results).columnNames|
    ensures |IntoFlattenedTable(results).rows[r]| == |IntoFlattenedTable(results).columnNames|
    ensures var name := IntoFlattenedTable(results).columnNames[o];
            Search(results[r].traces, name) ==
              if '?' in name then Err(BadTracePath(name)) else Ok(IntoFlattenedTable(results).rows[r][o])
  {
    hide *;
    var i, k := ColumnSearchIsExact(results, r, o);
  }

  /** Row 0 always lines up with the column names. */
  lemma FirstRowAligned(results: seq<RainEvalResult>)
    requires results != []
    ensures |IntoFlattenedTable(results).rows[0]| == |IntoFlattenedTable(results).columnNames|
  {
    CellsMatchNames(results[0].traces, |results[0].traces|);
  }
}
