/** Evaluation traces on the receiving side: decoding them, naming their stack
    items by call path, looking items up by such a name, and tabulating them. */
module TraceTable {
  import opened Words
  import opened Ops
  import opened Tracing
  import opened DottedPaths

  type U16 = n: int | 0 <= n < 0x1_0000

  const U16_MAX: nat := 0xFFFF
  const USIZE_MAX: nat := 0xFFFF_FFFF_FFFF_FFFF

  /** One decoded trace; its stack is topmost item first. */
  datatype RainSourceTrace = RainSourceTrace(parentSourceIndex: U16, sourceIndex: U16, stack: seq<Word>)

  // ----- decoding -----

  /** The whole words at the front of `b`. */
  function WholeWords(b: seq<Byte>): seq<Word> {
    if |b| < 32 then []
    else
      ValBound(b[..32]);
      [Val(b[..32])] + WholeWords(b[32..])
  }

  function Decoded(data: seq<Byte>): Option<RainSourceTrace> {
    if |data| < 4 then None
    else
      TwoByteBound(data[..2]);
      TwoByteBound(data[2..4]);
      Some(RainSourceTrace(Val(data[..2]), Val(data[2..4]), WholeWords(data[4..])))
  }

  function EncodedTrace(t: RainSourceTrace): seq<Byte> {
    ToBytes(t.parentSourceIndex, 2) + ToBytes(t.sourceIndex, 2) + WordBytes(t.stack)
  }

  lemma TwoByteBound(b: seq<Byte>)
    requires |b| == 2
    ensures Val(b) < 0x1_0000
  {
    ValBound(b);
    Pow2Add(8, 8);
    assert Pow2(8) == 0x100;
  }

  method FromData(data: seq<Byte>) returns (r: Option<RainSourceTrace>)
    ensures r == Decoded(data)
  {
    hide WholeWords, Val, Decoded;
    DecodedIs(data);
    if |data| < 4 {
      return None;
    }
    TwoByteBound(data[..2]);
    TwoByteBound(data[2..4]);
    var parentSourceIndex, sourceIndex := Val(data[..2]), Val(data[2..4]);
    var stack: seq<Word> := [];
    var i := 4;
    while i + 32 <= |data|
      invariant 4 <= i <= |data|
      invariant stack + WholeWords(data[i..]) == WholeWords(data[4..])
    {
      WordAt(data, i);
      stack := stack + [Val(data[i..i + 32])];
      i := i + 32;
    }
    NoWordAt(data, i);
    assert stack + [] == stack;
    r := Some(RainSourceTrace(parentSourceIndex, sourceIndex, stack));
  }

  lemma DecodedIs(data: seq<Byte>)
    ensures |data| < 4 ==> Decoded(data) == None
    ensures |data| >= 4 ==>
              && Val(data[..2]) < 0x1_0000 && Val(data[2..4]) < 0x1_0000
              && Decoded(data) == Some(RainSourceTrace(Val(data[..2]), Val(data[2..4]), WholeWords(data[4..])))
  {
    hide WholeWords, Val;
    if |data| >= 4 {
      TwoByteBound(data[..2]);
      TwoByteBound(data[2..4]);
    }
  }

  lemma WordAt(data: seq<Byte>, i: nat)
    requires i + 32 <= |data|
    ensures Val(data[i..i + 32]) < Pow2(256)
    ensures WholeWords(data[i..]) == [Val(data[i..i + 32])] + WholeWords(data[i + 32..])
  {
    hide Val;
    assert data[i..][..32] == data[i..i + 32] && data[i..][32..] == data[i + 32..];
    ValBound(data[i..i + 32]);
  }

  lemma NoWordAt(data: seq<Byte>, i: nat)
    requires i <= |data| < i + 32
    ensures WholeWords(data[i..]) == []
  {}

  lemma {:induction false} WholeWordsOfBytes(ws: seq<Word>)
    ensures WholeWords(WordBytes(ws)) == ws
  {
    if ws == [] {
    } else {
      var b := WordBytes(ws);
      assert b[..32] == ToBytes(ws[0], 32) && b[32..] == WordBytes(ws[1..]);
      WordRoundTrip(ws[0]);
      WholeWordsOfBytes(ws[1..]);
    }
  }

  lemma {:induction false} BytesOfWholeWords(b: seq<Byte>)
    ensures WordBytes(WholeWords(b)) == b[..|b| - |b| % 32]
  {
    hide Val, ToBytes;
    if |b| >= 32 {
      BytesOfWholeWords(b[32..]);
      ToBytesVal(b[..32]);
      assert |b[32..]| % 32 == |b| % 32;
      assert b[..|b| - |b| % 32] == b[..32] + b[32..][..|b[32..]| - |b| % 32];
    }
  }

  lemma TwoByteWidth()
    ensures Pow2(8 * 2) == 0x1_0000
  {
    Pow2Add(8, 8);
    assert Pow2(8) == 0x100;
  }

  /** The decoder recovers everything the tracer sent: both indices, truncated to
      16 bits, and the whole stack, topmost item first. */
  lemma DecodedCalldata(parent: nat, source: nat, stack: seq<Word>)
    ensures Decoded(Calldata(parent, source, stack))
         == Some(RainSourceTrace(parent % 0x1_0000, source % 0x1_0000, Reverse(stack)))
  {
    hide WordBytes, WholeWords, ToBytes, Val, Pow2, Decoded;
    DecodedIs(Calldata(parent, source, stack));
    var data := Calldata(parent, source, stack);
    assert data[..2] == ToBytes(parent % 0x1_0000, 2);
    assert data[2..4] == ToBytes(source % 0x1_0000, 2);
    assert data[4..] == WordBytes(Reverse(stack));
    ValToBytes(parent % 0x1_0000, 2);
    ValToBytes(source % 0x1_0000, 2);
    TwoByteWidth();
    WholeWordsOfBytes(Reverse(stack));
  }

  /** Encoding a decoded trace gives back its data, less a trailing partial word. */
  lemma EncodedDecoded(data: seq<Byte>)
    requires |data| >= 4
    ensures Decoded(data).Some?
    ensures EncodedTrace(Decoded(data).value) == data[..|data| - |data[4..]| % 32]
  {
    hide WordBytes, WholeWords;
    ToBytesVal(data[..2]);
    ToBytesVal(data[2..4]);
    BytesOfWholeWords(data[4..]);
    assert data == data[..2] + data[2..4] + data[4..];
  }

  // ----- collecting -----

  /** A node of the call trace arena: the callee's address and its calldata. */
  datatype CallNode = CallNode(address: nat, data: seq<Byte>)

  const RAIN_TRACER_ADDRESS: nat := 0xF06Cd48c98d7321649dB7D8b2C396A81A2046555

  function DecodedNodes(nodes: seq<CallNode>): seq<RainSourceTrace> {
    if nodes == [] then []
    else
      var rest := DecodedNodes(nodes[..|nodes| - 1]);
      var node := nodes[|nodes| - 1];
      if node.address == RAIN_TRACER_ADDRESS && Decoded(node.data).Some?
      then rest + [Decoded(node.data).value] else rest
  }

  /** The traces of a result: the tracer's calls, newest first. */
  function Collected(nodes: seq<CallNode>): seq<RainSourceTrace> {
    Reverse(DecodedNodes(nodes))
  }

  // ----- naming -----

  /** The last of the first `n` traces that evaluated source `s`. */
  function MostRecent(traces: seq<RainSourceTrace>, n: nat, s: nat): (r: Option<nat>)
    requires n <= |traces|
    ensures r.Some? ==> r.value < n && traces[r.value].sourceIndex == s
  {
    if n == 0 then None
    else if traces[n - 1].sourceIndex == s then Some(n - 1)
    else MostRecent(traces, n - 1, s)
  }

  /** The dotted call path that trace `i` is given. A trace whose parent was not
      seen falls back to a path that starts with a question-marked parent. */
  function PathString(traces: seq<RainSourceTrace>, i: nat): string
    requires i < |traces|
    decreases i
  {
    var t := traces[i];
    if t.parentSourceIndex == t.sourceIndex then Show(t.sourceIndex)
    else
      match MostRecent(traces, i, t.parentSourceIndex)
      case Some(j) => PathString(traces, j) + "." + Show(t.sourceIndex)
      case None => Show(t.parentSourceIndex) + "?." + Show(t.sourceIndex)
  }

  /** Names for the items of one stack, numbered from zero. */
  function ItemNames(path: string, n: nat): (names: seq<string>)
    ensures |names| == n
  {
    seq(n, k requires 0 <= k < n => path + "." + Show(k))
  }

  /** The column names of the first `n` traces. */
  function ColumnNames(traces: seq<RainSourceTrace>, n: nat): seq<string>
    requires n <= |traces|
  {
    if n == 0 then []
    else ColumnNames(traces, n - 1) + ItemNames(PathString(traces, n - 1), |traces[n - 1].stack|)
  }

  lemma {:induction false} LastPart(traces: seq<RainSourceTrace>, i: nat)
    requires i < |traces|
    ensures var parts := Split(PathString(traces, i));
            parts[|parts| - 1] == Show(traces[i].sourceIndex)
  {
    hide Split, Show, MostRecent;
    var t := traces[i];
    ShowPlain(t.sourceIndex);
    SplitWhole(Show(t.sourceIndex));
    if t.parentSourceIndex != t.sourceIndex {
      match MostRecent(traces, i, t.parentSourceIndex)
      case Some(j) => SplitDot(PathString(traces, j), Show(t.sourceIndex));
      case None =>
        SplitDot(Show(t.parentSourceIndex) + "?", Show(t.sourceIndex));
        assert Show(t.parentSourceIndex) + "?." == Show(t.parentSourceIndex) + "?" + ".";
    }
  }

  /** The most recent path that ends in `parent`, extended by `source`. */
  method ExtendRecent(sourcePaths: seq<string>, parent: U16, source: U16, ghost traces: seq<RainSourceTrace>)
    returns (found: Option<string>)
    requires |sourcePaths| <= |traces|
    requires forall j | 0 <= j < |sourcePaths| :: sourcePaths[j] == PathString(traces, j)
    ensures match MostRecent(traces, |sourcePaths|, parent)
            case Some(j) => found == Some(PathString(traces, j) + "." + Show(source))
            case None => found == None
  {
    hide PathString, MostRecent, Show, Split;
    var j := |sourcePaths|;
    while j > 0
      invariant 0 <= j <= |sourcePaths|
      invariant MostRecent(traces, j, parent) == MostRecent(traces, |sourcePaths|, parent)
    {
      j := j - 1;
      var recentPath := sourcePaths[j];
      var parts := Split(recentPath);
      LastPart(traces, j);
      MostRecentStep(traces, j, parent);
      if parts[|parts| - 1] == Show(parent) {
        ShowInjective(traces[j].sourceIndex, parent);
        return Some(recentPath + "." + Show(source));
      }
    }
    MostRecentStep(traces, 0, parent);
    found := None;
  }

  lemma MostRecentStep(traces: seq<RainSourceTrace>, n: nat, s: nat)
    requires n <= |traces|
    ensures MostRecent(traces, 0, s) == None
    ensures n < |traces| ==>
              MostRecent(traces, n + 1, s) == if traces[n].sourceIndex == s then Some(n) else MostRecent(traces, n, s)
  {}

  lemma PathStringIs(traces: seq<RainSourceTrace>, i: nat)
    requires i < |traces|
    ensures var t := traces[i];
            PathString(traces, i) ==
              if t.parentSourceIndex == t.sourceIndex then Show(t.sourceIndex)
              else
                match MostRecent(traces, i, t.parentSourceIndex)
                case Some(j) => PathString(traces, j) + "." + Show(t.sourceIndex)
                case None => Show(t.parentSourceIndex) + "?." + Show(t.sourceIndex)
  {
    hide Show, MostRecent;
  }

  lemma NamesStep(traces: seq<RainSourceTrace>, n: nat)
    requires n < |traces|
    ensures ColumnNames(traces, n + 1) == ColumnNames(traces, n) + ItemNames(PathString(traces, n), |traces[n].stack|)
  {
    hide PathString, Show, MostRecent, ItemNames;
  }

  lemma NoNames(traces: seq<RainSourceTrace>)
    ensures ColumnNames(traces, 0) == []
  {}

  /** Adds a name for each of the `n` items under a path. */
  method NameItems(pathNames: seq<string>, path: string, n: nat) returns (named: seq<string>)
    ensures named == pathNames + ItemNames(path, n)
  {
    hide Show;
    named := pathNames;
    for index := 0 to n
      invariant named == pathNames + ItemNames(path, n)[..index]
    {
      named := named + [path + "." + Show(index)];
    }
  }

  method FlattenedTracePathNames(traces: seq<RainSourceTrace>) returns (pathNames: seq<string>)
    ensures pathNames == ColumnNames(traces, |traces|)
  {
    hide PathString, ColumnNames, MostRecent, Show, ItemNames;
    NoNames(traces);
    pathNames := [];
    var sourcePaths: seq<string> := [];
    for i := 0 to |traces|
      invariant |sourcePaths| == i && forall j | 0 <= j < i :: sourcePaths[j] == PathString(traces, j)
      invariant pathNames == ColumnNames(traces, i)
    {
      PathStringIs(traces, i);
      NamesStep(traces, i);
      var trace := traces[i];
      var currentPath;
      if trace.parentSourceIndex == trace.sourceIndex {
        currentPath := Show(trace.sourceIndex);
      } else {
        var found := ExtendRecent(sourcePaths, trace.parentSourceIndex, trace.sourceIndex, traces);
        currentPath := if found.Some? then found.value
                       else Show(trace.parentSourceIndex) + "?." + Show(trace.sourceIndex);
      }
      pathNames := NameItems(pathNames, currentPath, |trace.stack|);
      sourcePaths := sourcePaths + [currentPath];
    }
  }

  // ----- looking up -----

  datatype TraceSearchError =
    | BadTracePath(path: string)
    | TraceNotFound(parent: nat, source: nat)

  predicate HasEdge(traces: seq<RainSourceTrace>, parent: nat, source: nat) {
    exists i | 0 <= i < |traces| :: traces[i].parentSourceIndex == parent && traces[i].sourceIndex == source
  }

  /** The first trace with the given edge. */
  function FirstWithEdge(traces: seq<RainSourceTrace>, parent: nat, source: nat): (r: Option<nat>)
    ensures r.Some? <==> HasEdge(traces, parent, source)
    ensures r.Some? ==>
              && r.value < |traces|
              && traces[r.value].parentSourceIndex == parent && traces[r.value].sourceIndex == source
              && forall i | 0 <= i < r.value :: !(traces[i].parentSourceIndex == parent && traces[i].sourceIndex == source)
  {
    FirstFrom(traces, parent, source, 0)
  }

  function FirstFrom(traces: seq<RainSourceTrace>, parent: nat, source: nat, from: nat): (r: Option<nat>)
    requires from <= |traces|
    requires forall i | 0 <= i < from :: !(traces[i].parentSourceIndex == parent && traces[i].sourceIndex == source)
    ensures r.Some? <==> HasEdge(traces, parent, source)
    ensures r.Some? ==>
              && r.value < |traces|
              && traces[r.value].parentSourceIndex == parent && traces[r.value].sourceIndex == source
              && forall i | 0 <= i < r.value :: !(traces[i].parentSourceIndex == parent && traces[i].sourceIndex == source)
    decreases |traces| - from
  {
    if from == |traces| then None
    else if traces[from].parentSourceIndex == parent && traces[from].sourceIndex == source then Some(from)
    else FirstFrom(traces, parent, source, from + 1)
  }

  /** The item at `index` counted from the bottom of a topmost-first stack. The
      addition wraps as it does in a release build. */
  function ItemFromBottom(t: RainSourceTrace, index: nat): Result<Word, TraceSearchError> {
    var back := (index + 1) % (USIZE_MAX + 1);
    if |t.stack| < back || |t.stack| - back >= |t.stack|
    then Err(TraceNotFound(t.parentSourceIndex, t.sourceIndex))
    else Ok(t.stack[|t.stack| - back])
  }

  /** Follows the parts of a path from an edge, one existing edge at a time. */
  function Descend(traces: seq<RainSourceTrace>, path: string, parts: seq<string>, parent: nat, source: nat)
    : Result<(nat, nat), TraceSearchError>
  {
    if parts == [] then Ok((parent, source))
    else
      var next := ParseUnsigned(parts[0], U16_MAX);
      if next.None? then Err(BadTracePath(path))
      else if !HasEdge(traces, source, next.value) then Err(TraceNotFound(source, next.value))
      else Descend(traces, path, parts[1..], source, next.value)
  }

  function Search(traces: seq<RainSourceTrace>, path: string): Result<Word, TraceSearchError> {
    var parts := Split(path);
    var n := |parts| - 1;
    if n < 1 then Err(BadTracePath(path))
    else
      var index, root := ParseUnsigned(parts[n], USIZE_MAX), ParseUnsigned(parts[0], U16_MAX);
      if index.None? || root.None? then Err(BadTracePath(path))
      else
        var edge := Descend(traces, path, parts[1..n], root.value, root.value);
        if edge.Err? then Err(edge.error)
        else
          var found := FirstWithEdge(traces, edge.value.0, edge.value.1);
          if found.None? then Err(TraceNotFound(edge.value.0, edge.value.1))
          else ItemFromBottom(traces[found.value], index.value)
  }

  method AnyEdge(traces: seq<RainSourceTrace>, parent: nat, source: nat) returns (any: bool)
    ensures any == HasEdge(traces, parent, source)
  {
    for i := 0 to |traces|
      invariant forall j | 0 <= j < i :: !(traces[j].parentSourceIndex == parent && traces[j].sourceIndex == source)
    {
      if traces[i].parentSourceIndex == parent && traces[i].sourceIndex == source {
        return true;
      }
    }
    any := false;
  }

  method SearchTraceByPath(traces: seq<RainSourceTrace>, path: string) returns (r: Result<Word, TraceSearchError>)
    ensures r == Search(traces, path)
  {
    var parts := Split(path);
    if |parts| < 2 {
      return Err(BadTracePath(path));
    }
    var last := parts[|parts| - 1];
    parts := parts[..|parts| - 1];
    var stackIndex := ParseUnsigned(last, USIZE_MAX);
    if stackIndex.None? {
      return Err(BadTracePath(path));
    }
    var root := ParseUnsigned(parts[0], U16_MAX);
    if root.None? {
      return Err(BadTracePath(path));
    }
    var currentParentIndex, currentSourceIndex := root.value, root.value;
    var i := 1;
    assert Split(path)[1..|parts|] == parts[1..];
    while i < |parts|
      invariant 1 <= i <= |parts|
      invariant Descend(traces, path, parts[1..], root.value, root.value)
             == Descend(traces, path, parts[i..], currentParentIndex, currentSourceIndex)
    {
      assert parts[i..][1..] == parts[i + 1..];
      var next := ParseUnsigned(parts[i], U16_MAX);
      if next.None? {
        return Err(BadTracePath(path));
      }
      var any := AnyEdge(traces, currentSourceIndex, next.value);
      if !any {
        return Err(TraceNotFound(currentSourceIndex, next.value));
      }
      currentParentIndex, currentSourceIndex := currentSourceIndex, next.value;
      i := i + 1;
    }
    var found := FirstWithEdge(traces, currentParentIndex, currentSourceIndex);
    if found.None? {
      return Err(TraceNotFound(currentParentIndex, currentSourceIndex));
    }
    r := ItemFromBottom(traces[found.value], stackIndex.value);
  }

  // ----- what a search finds -----

  function ParseAll(parts: seq<string>): Option<seq<nat>> {
    if parts == [] then Some([])
    else
      var head, tail := ParseUnsigned(parts[0], U16_MAX), ParseAll(parts[1..]);
      if head.None? || tail.None? then None else Some([head.value] + tail.value)
  }

  /** A path read as source indices and a final item index. */
  function ParsePath(path: string): (r: Option<(seq<nat>, nat)>)
    ensures r.Some? ==> r.value.0 != []
  {
    var parts := Split(path);
    var n := |parts| - 1;
    var index, sources := ParseUnsigned(parts[n], USIZE_MAX), ParseAll(parts[..n]);
    if n < 1 || index.None? || sources.None? then None
    else
      assert sources.value != [];
      Some((sources.value, index.value))
  }

  /** Every step of the path is an edge of some trace. */
  predicate EdgesExist(traces: seq<RainSourceTrace>, sources: seq<nat>) {
    forall j | 0 <= j < |sources| - 1 :: HasEdge(traces, sources[j], sources[j + 1])
  }

  /** The edge a path ends on; a root is its own parent. */
  function LastEdge(parent: nat, sources: seq<nat>): (nat, nat)
    requires sources != []
  {
    var n := |sources| - 1;
    (if n == 0 then parent else sources[n - 1], sources[n])
  }

  lemma {:induction false} DescendExact(traces: seq<RainSourceTrace>, path: string, parts: seq<string>, parent: nat, source: nat)
    ensures Descend(traces, path, parts, parent, source).Ok?
       <==> ParseAll(parts).Some? && EdgesExist(traces, [source] + ParseAll(parts).value)
    ensures Descend(traces, path, parts, parent, source).Ok? ==>
              Descend(traces, path, parts, parent, source).value == LastEdge(parent, [source] + ParseAll(parts).value)
  {
    if parts == [] {
    } else {
      var next := ParseUnsigned(parts[0], U16_MAX);
      if next.Some? {
        DescendExact(traces, path, parts[1..], source, next.value);
        if ParseAll(parts[1..]).Some? {
          var rest := [next.value] + ParseAll(parts[1..]).value;
          assert ParseAll(parts).value == rest;
          EdgesCons(traces, source, rest);
        }
      }
    }
  }

  lemma EdgesCons(traces: seq<RainSourceTrace>, source: nat, rest: seq<nat>)
    requires rest != []
    ensures EdgesExist(traces, [source] + rest) <==> HasEdge(traces, source, rest[0]) && EdgesExist(traces, rest)
  {
    var all := [source] + rest;
    if EdgesExist(traces, all) {
      assert HasEdge(traces, all[0], all[1]);
      forall j | 0 <= j < |rest| - 1
        ensures HasEdge(traces, rest[j], rest[j + 1])
      {
        assert HasEdge(traces, all[j + 1], all[j + 2]);
      }
    }
  }

  /** Whether a search should succeed, and with what: every step of the path
      exists, the first trace on its last edge has the item, and that item,
      counted from the bottom, is the answer. */
  ghost predicate Finds(traces: seq<RainSourceTrace>, path: string, w: Word) {
    var parsed := ParsePath(path);
    parsed.Some?
    && var (sources, index) := parsed.value;
       var (parent, source) := LastEdge(sources[0], sources);
       && EdgesExist(traces, sources)
       && HasEdge(traces, parent, source)
       && var stack := traces[FirstWithEdge(traces, parent, source).value].stack;
          index < |stack| && w == stack[|stack| - 1 - index]
  }

  /** The edge that a path's sources lead to, as the search follows them. */
  lemma SearchFollows(traces: seq<RainSourceTrace>, path: string)
    ensures match ParsePath(path)
            case None => Search(traces, path).Err?
            case Some((sources, index)) =>
              var (parent, source) := LastEdge(sources[0], sources);
              if EdgesExist(traces, sources) && HasEdge(traces, parent, source)
              then Search(traces, path) == ItemFromBottom(traces[FirstWithEdge(traces, parent, source).value], index)
              else Search(traces, path).Err?
  {
    hide Split, ParseUnsigned, ItemFromBottom, EdgesExist, HasEdge, Descend;
    var parts := Split(path);
    var n := |parts| - 1;
    if n >= 1 {
      assert parts[..n][1..] == parts[1..n];
      var root := ParseUnsigned(parts[0], U16_MAX);
      if root.Some? {
        DescendExact(traces, path, parts[1..n], root.value, root.value);
      }
    }
  }

  lemma ItemExact(t: RainSourceTrace, index: nat, w: Word)
    requires |t.stack| <= USIZE_MAX && index <= USIZE_MAX
    ensures ItemFromBottom(t, index) == Ok(w) <==> index < |t.stack| && w == t.stack[|t.stack| - 1 - index]
  {}

  lemma ParsedIndexFits(path: string)
    ensures ParsePath(path).Some? ==> ParsePath(path).value.1 <= USIZE_MAX
  {
    hide Split, DigitsValue, ParseAll;
  }

  /** The search is exact. A stack holds fewer items than a machine word can
      count. */
  lemma SearchExact(traces: seq<RainSourceTrace>, path: string, w: Word)
    requires forall i | 0 <= i < |traces| :: |traces[i].stack| <= USIZE_MAX
    ensures Search(traces, path) == Ok(w) <==> Finds(traces, path, w)
  {
    hide Search, ParsePath, ItemFromBottom, EdgesExist, HasEdge, FirstWithEdge, LastEdge;
    SearchFollows(traces, path);
    ParsedIndexFits(path);
    match ParsePath(path)
    case None =>
    case Some((sources, index)) =>
      var (parent, source) := LastEdge(sources[0], sources);
      if HasEdge(traces, parent, source) {
        ItemExact(traces[FirstWithEdge(traces, parent, source).value], index, w);
      }
  }

  // ----- what a failed search says -----

  lemma {:induction false} DescendAlong(
      traces: seq<RainSourceTrace>, path: string, parts: seq<string>, sources: seq<nat>, parent: nat, j: nat)
    requires j <= |parts| && j < |sources|
    requires forall m | 0 <= m < j :: ParseUnsigned(parts[m], U16_MAX) == Some(sources[m + 1])
    requires forall m | 0 <= m < j :: HasEdge(traces, sources[m], sources[m + 1])
    ensures Descend(traces, path, parts, parent, sources[0])
         == Descend(traces, path, parts[j..], if j == 0 then parent else sources[j - 1], sources[j])
    decreases j
  {
    hide ParseUnsigned, HasEdge, Descend;
    if j == 0 {
      assert parts[0..] == parts;
    } else {
      DescendAlong(traces, path, parts, sources, parent, j - 1);
      var rest := parts[j - 1..];
      assert rest[0] == parts[j - 1] && rest[1..] == parts[j..];
      DescendStep(traces, path, rest, if j == 1 then parent else sources[j - 2], sources[j - 1], sources[j]);
    }
  }

  lemma DescendStep(
      traces: seq<RainSourceTrace>, path: string, parts: seq<string>, parent: nat, source: nat, next: nat)
    requires parts != [] && ParseUnsigned(parts[0], U16_MAX) == Some(next) && HasEdge(traces, source, next)
    ensures Descend(traces, path, parts, parent, source) == Descend(traces, path, parts[1..], source, next)
  {
    hide ParseUnsigned, HasEdge;
  }

  /** A path with no index, or an index or a root that is not a number of its width,
      is refused as a path. */
  lemma SearchRefusesPath(traces: seq<RainSourceTrace>, path: string)
    requires var parts := Split(path);
             || |parts| < 2
             || ParseUnsigned(parts[|parts| - 1], 0xFFFF_FFFF_FFFF_FFFF).None?
             || ParseUnsigned(parts[0], 0xFFFF).None?
    ensures Search(traces, path) == Err(BadTracePath(path))
  {
    hide Split, ParseUnsigned, Descend, HasEdge;
  }

  /** Otherwise the search goes along the path as far as parts are numbers and edges
      exist. Part `j` that is no number is refused as a path; a number without an edge
      to it is not found, and the error names that edge. */
  lemma SearchStopsAt(traces: seq<RainSourceTrace>, path: string, sources: seq<nat>, j: nat)
    requires var parts := Split(path);
             && 1 <= j < |parts| - 1 && |sources| == j
             && ParseUnsigned(parts[|parts| - 1], 0xFFFF_FFFF_FFFF_FFFF).Some?
             && (forall m | 0 <= m < j :: ParseUnsigned(parts[m], 0xFFFF) == Some(sources[m]))
             && (forall m | 0 <= m < j - 1 :: HasEdge(traces, sources[m], sources[m + 1]))
    ensures match ParseUnsigned(Split(path)[j], 0xFFFF)
            case None => Search(traces, path) == Err(BadTracePath(path))
            case Some(next) =>
              !HasEdge(traces, sources[j - 1], next) ==> Search(traces, path) == Err(TraceNotFound(sources[j - 1], next))
  {
    hide Split, ParseUnsigned, HasEdge;
    var parts := Split(path);
    var n := |parts| - 1;
    var inner := parts[1..n];
    assert forall m | 0 <= m < j - 1 :: inner[m] == parts[m + 1];
    DescendAlong(traces, path, inner, sources, sources[0], j - 1);
    assert inner[j - 1..][0] == parts[j];
  }

  /** A path whose parts are all numbers along existing edges ends on an edge; if no
      trace has that edge, as a root may not, or the first one has no such item, the
      error names the edge. */
  lemma SearchEndsAt(traces: seq<RainSourceTrace>, path: string, sources: seq<nat>, index: nat)
    requires var parts := Split(path);
             && |sources| == |parts| - 1 >= 1
             && ParseUnsigned(parts[|parts| - 1], 0xFFFF_FFFF_FFFF_FFFF) == Some(index)
             && (forall m | 0 <= m < |sources| :: ParseUnsigned(parts[m], 0xFFFF) == Some(sources[m]))
             && (forall m | 0 <= m < |sources| - 1 :: HasEdge(traces, sources[m], sources[m + 1]))
    requires forall i | 0 <= i < |traces| :: |traces[i].stack| <= USIZE_MAX
    ensures var n := |sources|;
            var parent, source := if n == 1 then sources[0] else sources[n - 2], sources[n - 1];
            match FirstWithEdge(traces, parent, source)
            case None => Search(traces, path) == Err(TraceNotFound(parent, source))
            case Some(i) =>
              var stack := traces[i].stack;
              Search(traces, path) ==
              if index < |stack| then Ok(stack[|stack| - 1 - index]) else Err(TraceNotFound(parent, source))
  {
    hide Split, HasEdge, FirstWithEdge, ItemFromBottom, ParseUnsigned;
    var parts := Split(path);
    var n := |sources|;
    var inner := parts[1..n];
    assert forall m | 0 <= m < n - 1 :: inner[m] == parts[m + 1];
    DescendAlong(traces, path, inner, sources, sources[0], n - 1);
    assert inner[n - 1..] == [];
    IndexFits(parts[n], index);
    var parent, source := if n == 1 then sources[0] else sources[n - 2], sources[n - 1];
    var first := FirstWithEdge(traces, parent, source);
    if first.Some? {
      ItemIs(traces[first.value], index);
    }
  }

  lemma IndexFits(s: string, index: nat)
    requires ParseUnsigned(s, 0xFFFF_FFFF_FFFF_FFFF) == Some(index)
    ensures index <= 0xFFFF_FFFF_FFFF_FFFF
  {}

  lemma ItemIs(t: RainSourceTrace, index: nat)
    requires |t.stack| <= USIZE_MAX && index <= USIZE_MAX
    ensures ItemFromBottom(t, index) ==
            if index < |t.stack| then Ok(t.stack[|t.stack| - 1 - index])
            else Err(TraceNotFound(t.parentSourceIndex, t.sourceIndex))
  {}
}
