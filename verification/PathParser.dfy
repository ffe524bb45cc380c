/** src/fs/pparser.c: splitting "d:/a/b" into a drive number and a linked list of parts. */
module PathParser {
  import opened Strings

  const MAX_PATH := 108

  // --- What a path means ---------------------------------------------------------------------

  /** All the segments between slashes, empty ones included. */
  function Split(s: seq<char>): (r: seq<seq<char>>)
    ensures r != []
    decreases |s|
  {
    var n := Span(s, ['/']);
    if n == |s| then [s] else [s[..n]] + Split(s[n + 1..])
  }

  function BeforeEmpty(segments: seq<seq<char>>): seq<seq<char>> {
    if segments == [] || segments[0] == [] then [] else [segments[0]] + BeforeEmpty(segments[1..])
  }

  /** The parts the parser's loop collects. */
  function Parts(s: seq<char>): seq<seq<char>>
    decreases |s|
  {
    var n := Span(s, ['/']);
    if n == 0 then [] else [s[..n]] + Parts(After(s, n))
  }

  /** Split is the one way to write s as slash-free segments joined by slashes. */
  lemma {:induction false} SplitIsUnjoin(s: seq<char>)
    ensures Join(Split(s), '/') == s && forall w :: w in Split(s) ==> '/' !in w
    decreases |s|
  {
    hide Span;
    var n := Span(s, ['/']);
    SpanMeans(s, ['/']);
    if n < |s| {
      var rest := s[n + 1..];
      SplitIsUnjoin(rest);
      assert Split(s)[1..] == Split(rest);
      JoinSplit(s, n, Split(rest));
    }
  }

  lemma JoinSplit(s: seq<char>, n: nat, rest: seq<seq<char>>)
    requires n < |s| && s[n] == '/' && '/' !in s[..n] && rest != []
    requires Join(rest, '/') == s[n + 1..] && forall w :: w in rest ==> '/' !in w
    ensures Join([s[..n]] + rest, '/') == s && forall w :: w in [s[..n]] + rest ==> '/' !in w
  {
    assert ([s[..n]] + rest)[1..] == rest;
    assert s == s[..n] + ['/'] + s[n + 1..];
  }

  lemma {:induction false} SplitOfJoin(segments: seq<seq<char>>)
    requires segments != [] && forall w :: w in segments ==> '/' !in w
    ensures Split(Join(segments, '/')) == segments
  {
    var w, s := segments[0], Join(segments, '/');
    assert s[..|w|] == w;
    forall k | 0 <= k < |w| ensures s[k] != '/' {
      assert s[k] == s[..|w|][k] && w[k] in w;
    }
    SpanIs(s, ['/'], |w|);
    if |segments| > 1 {
      assert s[|w| + 1..] == Join(segments[1..], '/');
      SplitOfJoin(segments[1..]);
      assert segments == [w] + segments[1..];
    }
  }

  /** The parser keeps the segments before the first empty one. */
  lemma {:induction false} PartsAreBeforeEmpty(s: seq<char>)
    ensures Parts(s) == BeforeEmpty(Split(s))
    decreases |s|
  {
    var n := Span(s, ['/']);
    if 0 < n < |s| {
      PartsAreBeforeEmpty(s[n + 1..]);
      assert Split(s)[1..] == Split(s[n + 1..]);
    } else if n > 0 {
      assert Parts(After(s, n)) == [] && s[..n] == s;
      assert [s][1..] == [];
    }
  }

  lemma {:induction false} AllBeforeEmpty(segments: seq<seq<char>>)
    ensures BeforeEmpty(segments) == segments <==> (forall w :: w in segments ==> w != [])
  {
    if segments != [] {
      var rest := segments[1..];
      assert segments[0] in segments;
      forall w ensures w in segments <==> (w == segments[0] || w in rest) {
        if w in segments {
          var i :| 0 <= i < |segments| && segments[i] == w;
          if i > 0 { assert rest[i - 1] == w; }
        }
      }
      AllBeforeEmpty(rest);
      if segments[0] != [] { assert BeforeEmpty(segments)[1..] == BeforeEmpty(rest); }
    }
  }

  /** pathparser_path_valid_format, on the text of the path. */
  predicate ValidFormat(text: seq<char>) {
    |text| >= 3 && '0' <= text[0] <= '9' && text[1] == ':' && text[2] == '/'
  }

  predicate Accepted(text: seq<char>) {
    |text| <= MAX_PATH && ValidFormat(text)
  }

  function DriveOf(text: seq<char>): int
    requires ValidFormat(text)
  {
    text[0] as int - '0' as int
  }

  /** A path written out. */
  function Printed(drive: nat, parts: seq<seq<char>>): seq<char>
    requires drive < 10
  {
    [('0' as int + drive) as char, ':', '/'] + Join(parts, '/')
  }

  /** Parsing undoes printing exactly for nonempty slash-free parts that fit. */
  lemma PrintThenParseIff(drive: nat, parts: seq<seq<char>>)
    requires drive < 10
    ensures var text := Printed(drive, parts);
      (Accepted(text) && DriveOf(text) == drive && Parts(text[3..]) == parts)
      <==> (3 + |Join(parts, '/')| <= MAX_PATH && forall w :: w in parts ==> IsWord(w, '/'))
  {
    var text := Printed(drive, parts);
    assert text[3..] == Join(parts, '/');
    PartsOfJoin(parts);
  }

  lemma PartsOfJoin(parts: seq<seq<char>>)
    ensures Parts(Join(parts, '/')) == parts <==> (forall w :: w in parts ==> IsWord(w, '/'))
  {
    var s := Join(parts, '/');
    PartsAreBeforeEmpty(s);
    SplitIsUnjoin(s);
    BeforeEmptyFrom(Split(s));
    if parts != [] && (forall w :: w in parts ==> IsWord(w, '/')) {
      SplitOfJoin(parts);
      AllBeforeEmpty(parts);
    }
  }

  lemma {:induction false} BeforeEmptyFrom(segments: seq<seq<char>>)
    ensures forall w :: w in BeforeEmpty(segments) ==> w in segments && w != []
  {
    if segments != [] && segments[0] != [] { BeforeEmptyFrom(segments[1..]); }
  }

  // --- The parser ---------------------------------------------------------------------------------

  /** The kernel heap as the parser uses it: what is allocated and not yet freed. */
  class Allocations {
    ghost var live: set<object>

    constructor ()
      ensures live == {}
    {
      live := {};
    }

    /** kzalloc has handed out o. */
    ghost method Kzalloc(o: object)
      requires o !in live
      modifies this
      ensures live == old(live) + {o}
    {
      live := live + {o};
    }

    /** kfree, of something live only. */
    ghost method Kfree(o: object)
      requires o in live
      modifies this
      ensures live == old(live) - {o}
    {
      live := live - {o};
    }
  }

  /** struct path_part */
  class PathPart {
    const part: array<char>
    var next: PathPart?

    constructor (part: array<char>)
      ensures this.part == part && next == null
    {
      this.part := part;
      next := null;
    }
  }

  /** struct path_root */
  class PathRoot {
    const driveNo: int
    var first: PathPart?

    constructor (driveNo: int)
      ensures this.driveNo == driveNo && first == null
    {
      this.driveNo := driveNo;
      first := null;
    }
  }

  ghost predicate Chain(root: PathRoot, nodes: seq<PathPart>)
    reads root, nodes
  {
    && root.first == (if nodes == [] then null else nodes[0]) && Linked(nodes)
  }

  ghost predicate Linked(nodes: seq<PathPart>)
    reads nodes
  {
    && (forall i :: 0 <= i < |nodes| - 1 ==> nodes[i].next == nodes[i + 1])
    && (nodes != [] ==> nodes[|nodes| - 1].next == null)
  }

  /** Node i's 108-byte buffer holds part i with its terminator. */
  ghost predicate Holds(nodes: seq<PathPart>, parts: seq<seq<char>>)
    reads set n | n in nodes :: n.part
  {
    |nodes| <= |parts| && forall i :: 0 <= i < |nodes| ==> BufferHolds(nodes[i].part, parts[i])
  }

  ghost predicate BufferHolds(buffer: array<char>, part: seq<char>)
    reads buffer
  {
    buffer.Length == MAX_PATH && StringIs(buffer[..], 0, part)
  }

  /** The nodes and their buffers, all of them different. */
  ghost function NodeObjects(nodes: seq<PathPart>): set<object> {
    if nodes == [] then {} else NodeObjects(nodes[..|nodes| - 1]) + {nodes[|nodes| - 1], nodes[|nodes| - 1].part}
  }

  ghost predicate Separate(nodes: seq<PathPart>) {
    nodes != [] ==>
      (var last := nodes[|nodes| - 1];
      Separate(nodes[..|nodes| - 1]) && last !in NodeObjects(nodes[..|nodes| - 1])
        && last.part !in NodeObjects(nodes[..|nodes| - 1]))
  }

  lemma {:induction false} SeparatePrefix(nodes: seq<PathPart>, i: nat)
    requires Separate(nodes) && i < |nodes|
    ensures nodes[i] !in NodeObjects(nodes[..i]) && nodes[i].part !in NodeObjects(nodes[..i])
    ensures nodes[i] in NodeObjects(nodes) && nodes[i].part in NodeObjects(nodes)
    ensures NodeObjects(nodes[..i + 1]) == NodeObjects(nodes[..i]) + {nodes[i], nodes[i].part}
  {
    assert nodes[..i + 1][..i] == nodes[..i];
    if i < |nodes| - 1 {
      var before := nodes[..|nodes| - 1];
      assert before[..i] == nodes[..i] && before[..i + 1] == nodes[..i + 1];
      SeparatePrefix(before, i);
    } else {
      assert nodes[..i + 1] == nodes;
    }
  }

  lemma SeparateMore(nodes: seq<PathPart>, part: PathPart)
    requires Separate(nodes) && part !in NodeObjects(nodes) && part.part !in NodeObjects(nodes)
    ensures Separate(nodes + [part]) && NodeObjects(nodes + [part]) == NodeObjects(nodes) + {part, part.part}
  {
    assert (nodes + [part])[..|nodes|] == nodes;
  }

  /** pathparser_get_path_part: the characters up to the next slash, in a buffer of their
      own, and the position behind that slash; a null part if there are none. */
  method GetPathPart(heap: Allocations, memory: seq<char>, path: nat) returns (part: array?<char>, next: nat)
    requires Terminated(memory, path) && |CString(memory[path..])| < MAX_PATH
    modifies heap
    ensures var text := CString(memory[path..]); var n := Span(text, ['/']);
      && Terminated(memory, next) && CString(memory[next..]) == After(text, n)
      && (n == 0 ==> part == null && heap.live == old(heap.live))
      && (n > 0 ==> part != null && fresh(part) && heap.live == old(heap.live) + {part} && BufferHolds(part, text[..n]))
  {
    hide CString, Span, Terminated;
    EndsWithin(memory, path);
    ghost var text := CString(memory[path..]);
    var buffer := new char[MAX_PATH](_ => NUL);
    heap.Kzalloc(buffer);
    TextReads(memory, path);
    next := path;
    var i := 0;
    while memory[next] != '/' && memory[next] != NUL
      invariant i <= |text| && next == path + i && heap.live == old(heap.live) + {buffer}
      invariant forall k :: 0 <= k < i ==> text[k] !in ['/'] && buffer[k] == text[k]
      invariant forall k :: i <= k < MAX_PATH ==> buffer[k] == NUL
      decreases |text| - i
    {
      assert i < |text|;
      buffer[i] := memory[next];
      next := next + 1;
      i := i + 1;
    }
    SpanIs(text, ['/'], i);
    StringAt(buffer[..], 0, text[..i]);
    StringAt(memory, path + Beyond(text, i), After(text, i));
    if memory[next] == '/' {
      next := next + 1;
    }
    part := buffer;
    if i == 0 {
      heap.Kfree(buffer);
      part := null;
    }
  }

  /** The nodes hold the first parts and text is what the rest are to come from. */
  ghost predicate Parsing(nodes: seq<PathPart>, parts: seq<seq<char>>, memory: seq<char>, path: nat) {
    && Terminated(memory, path) && |CString(memory[path..])| < MAX_PATH
    && |nodes| <= |parts| && parts[|nodes|..] == Parts(CString(memory[path..]))
  }

  /** pathparser_parse_path_part: one more node behind the last one, or null at the first
      empty part. */
  method ParsePathPart(heap: Allocations, last: PathPart?, memory: seq<char>, path: nat, ghost nodes: seq<PathPart>,
      ghost parts: seq<seq<char>>)
    returns (part: PathPart?, next: nat)
    requires Parsing(nodes, parts, memory, path) && Linked(nodes) && Holds(nodes, parts)
    requires last == if nodes == [] then null else nodes[|nodes| - 1]
    modifies heap, last
    ensures part == null ==> |nodes| == |parts| && Linked(nodes) && heap.live == old(heap.live)
    ensures part != null ==>
      (|nodes| + 1 <= |parts| && fresh(part) && fresh(part.part) && heap.live == old(heap.live) + {part, part.part}
      && Linked(nodes + [part]) && Holds(nodes + [part], parts) && Parsing(nodes + [part], parts, memory, next))
  {
    hide CString, Span, Terminated, StringIs, Parts, Parsing, BufferHolds;
    part := null;
    ParsingStep(nodes, parts, memory, path);
    ghost var text := CString(memory[path..]);
    var pathPart;
    pathPart, next := GetPathPart(heap, memory, path);
    if pathPart == null {
      return;
    }
    part := new PathPart(pathPart);
    heap.Kzalloc(part);
    if last == null {
      assert nodes + [part] == [part];
    } else {
      Link(last, part, nodes);
    }
    HoldsMore(nodes, part, parts);
    ParsingOn(nodes, part, parts, memory, path, next);
  }

  /** last_part->next = part */
  method Link(last: PathPart, part: PathPart, ghost nodes: seq<PathPart>)
    requires nodes != [] && last == nodes[|nodes| - 1] && Linked(nodes) && part !in nodes && part.next == null
    modifies last`next
    ensures Linked(nodes + [part])
  {
    ghost var all := nodes + [part];
    forall i | 0 <= i < |nodes| - 1 ensures all[i] != last && all[i].next == all[i + 1] {
      assert nodes[i].next == nodes[i + 1];
      assert all[i] == nodes[i] && all[i + 1] == nodes[i + 1];
    }
    assert part != last by { assert last in nodes; }
    last.next := part;
    assert all[|nodes| - 1] == last && all[|nodes|] == part;
  }

  lemma HoldsMore(nodes: seq<PathPart>, part: PathPart, parts: seq<seq<char>>)
    requires Holds(nodes, parts) && |nodes| < |parts| && BufferHolds(part.part, parts[|nodes|])
    ensures Holds(nodes + [part], parts)
  {
    hide BufferHolds;
  }

  lemma ParsingStep(nodes: seq<PathPart>, parts: seq<seq<char>>, memory: seq<char>, path: nat)
    requires Parsing(nodes, parts, memory, path)
    ensures path <= |memory| && Terminated(memory, path) && |CString(memory[path..])| < MAX_PATH
    ensures var text := CString(memory[path..]); var n := Span(text, ['/']);
      |nodes| <= |parts| && (n == 0 ==> |nodes| == |parts|)
        && (n > 0 ==> |nodes| < |parts| && parts[|nodes|] == text[..n])
  {
    hide CString, Span;
  }

  lemma ParsingOn(nodes: seq<PathPart>, part: PathPart, parts: seq<seq<char>>, memory: seq<char>, path: nat, next: nat)
    requires Parsing(nodes, parts, memory, path) && Terminated(memory, next)
    requires var text := CString(memory[path..]); var n := Span(text, ['/']);
      n > 0 && CString(memory[next..]) == After(text, n)
    ensures Parsing(nodes + [part], parts, memory, next)
  {
    hide CString, Span, Terminated;
    ParsingStep(nodes, parts, memory, path);
    var text := CString(memory[path..]);
    var n := Span(text, ['/']);
    assert Parts(text) == [text[..n]] + Parts(After(text, n));
    assert parts[|nodes|..][1..] == parts[|nodes| + 1..];
  }

  /** pathparser_parse: null for a path that is too long or has no drive prefix, with nothing
      left allocated; otherwise the drive and the parts up to the first empty one. */
  method Parse(heap: Allocations, path: seq<char>) returns (root: PathRoot?, ghost nodes: seq<PathPart>)
    requires Terminated(path, 0)
    modifies heap
    ensures !Accepted(CString(path)) ==> root == null && heap.live == old(heap.live)
    ensures Accepted(CString(path)) ==>
      (root != null && fresh(root) && root.driveNo == DriveOf(CString(path)) && Chain(root, nodes)
      && Holds(nodes, Parts(CString(path)[3..])) && |nodes| == |Parts(CString(path)[3..])|
      && Separate(nodes) && heap.live == old(heap.live) + {root} + NodeObjects(nodes)
      && root !in NodeObjects(nodes) && old(heap.live) !! {root} + NodeObjects(nodes))
  {
    hide CString, Terminated, Parts, Parsing, Holds, Separate, NodeObjects;
    root, nodes := null, [];
    assert path[0..] == path;
    TextReads(path, 0);
    if |CString(path)| > MAX_PATH {
      return;
    }
    if |CString(path)| < 3 || path[0] < '0' || path[0] > '9' || path[1] != ':' || path[2] != '/' {
      return;
    }
    ghost var parts := Parts(CString(path)[3..]);
    StartParsing(path, parts);
    root := new PathRoot(path[0] as int - '0' as int);
    heap.Kzalloc(root);
    var part, next := ParsePathPart(heap, null, path, 3, [], parts);
    if part == null {
      return;
    }
    root.first := part;
    assert [] + [part] == [part];
    nodes := OtherParts(heap, part, path, next, parts);
    RootApart(root, nodes);
    SeparatePrefix(nodes, 0);
  }

  /** The loop over the parts behind the first. */
  method OtherParts(heap: Allocations, first: PathPart, path: seq<char>, from: nat,
      ghost parts: seq<seq<char>>) returns (ghost nodes: seq<PathPart>)
    requires Linked([first]) && Holds([first], parts) && Parsing([first], parts, path, from)
    requires first in heap.live && first.part in heap.live
    modifies heap, first
    ensures nodes != [] && nodes[0] == first && Linked(nodes) && Holds(nodes, parts) && |nodes| == |parts|
    ensures Separate(nodes)
    ensures heap.live == old(heap.live) + NodeObjects(nodes)
    ensures forall o :: o in NodeObjects(nodes) ==> o == first || o == first.part || fresh(o)
  {
    hide CString, Terminated, Parts, Parsing, Holds, Separate, NodeObjects, Linked;
    var part: PathPart?, next := first, from;
    nodes := [first];
    OneNode(first);
    ParsingStep(nodes, parts, path, next);
    while part != null
      invariant nodes != [] && nodes[0] == first && Linked(nodes) && Holds(nodes, parts) && Separate(nodes)
      invariant heap.live == old(heap.live) + NodeObjects(nodes)
      invariant forall o :: o in NodeObjects(nodes) ==> o == first || o == first.part || fresh(o)
      invariant part == null || part == first || fresh(part)
      invariant part == null ==> |nodes| == |parts|
      invariant part != null ==> |nodes| <= |parts| && part == nodes[|nodes| - 1] && Parsing(nodes, parts, path, next)
      decreases part != null, |parts| - |nodes|
    {
      part, next := ParsePathPart(heap, part, path, next, nodes, parts);
      if part != null {
        SeparateMore(nodes, part);
        nodes := nodes + [part];
      }
    }
  }

  lemma OneNode(first: PathPart)
    ensures Separate([first]) && NodeObjects([first]) == {first, first.part}
  {
    assert [first][..0] == [];
  }

  lemma {:induction false} RootApart(root: PathRoot, nodes: seq<PathPart>)
    ensures root !in NodeObjects(nodes)
  {
    if nodes != [] { RootApart(root, nodes[..|nodes| - 1]); }
  }

  lemma StartParsing(path: seq<char>, parts: seq<seq<char>>)
    requires Terminated(path, 0) && 3 <= |CString(path)| <= MAX_PATH && parts == Parts(CString(path)[3..])
    ensures Parsing([], parts, path, 3) && Linked([]) && Holds([], parts) && Separate([]) && NodeObjects([]) == {}
  {
    hide CString, Terminated;
    assert path[0..] == path;
    TextReads(path, 0);
    StringAt(path, 3, CString(path)[3..]);
  }

  /** pathparser_free gives back the root, every node and every buffer, each once. */
  method Free(heap: Allocations, root: PathRoot, ghost nodes: seq<PathPart>)
    requires Chain(root, nodes) && Separate(nodes) && {root} + NodeObjects(nodes) <= heap.live
    requires root !in NodeObjects(nodes)
    modifies heap
    ensures heap.live == old(heap.live) - {root} - NodeObjects(nodes)
  {
    hide Separate, NodeObjects;
    var part := root.first;
    ghost var i := 0;
    NoObjects(nodes);
    while part != null
      invariant i <= |nodes| && part == if i == |nodes| then null else nodes[i]
      invariant heap.live == old(heap.live) - NodeObjects(nodes[..i])
      decreases |nodes| - i
    {
      SeparatePrefix(nodes, i);
      var nextPart := part.next;
      heap.Kfree(part.part);
      heap.Kfree(part);
      part := nextPart;
      i := i + 1;
    }
    assert nodes[..i] == nodes;
    heap.Kfree(root);
  }

  lemma NoObjects(nodes: seq<PathPart>)
    ensures NodeObjects(nodes[..0]) == {}
  {
  }

  /** Parsing a path and freeing the result leaves the heap as it was, whatever the path. */
  method ParseThenFree(heap: Allocations, path: seq<char>)
    requires Terminated(path, 0)
    modifies heap
    ensures heap.live == old(heap.live)
  {
    var root, nodes := Parse(heap, path);
    if root != null {
      Free(heap, root, nodes);
    }
  }
}
