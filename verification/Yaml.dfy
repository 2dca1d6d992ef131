/**
 `utils/yamlutil.cc`: the indentation-stack parser. The stack always holds the ancestors of the
 node last opened, which is the rightmost path of the tree, so tree and stack height are its state.
 */
module Yaml {
  import opened Wrappers
  import opened StrUtil

  // -- The tree --

  datatype Node = Node(key: string, value: Option<Value>)

  /** `curr` and `len` are the counters of `ValueArray`: fields of the open record, fields per record. */
  datatype Value =
    | Leaf(data: string)
    | Obj(nodes: seq<Node>)
    | Arr(elems: seq<Value>, curr: int, len: int)

  /** `Insert` of the three kinds of value; None where the source asserts or reads past the end. */
  function Insert(v: Value, n: Node): Option<Value> {
    match v
    case Leaf(_) => None
    case Obj(nodes) => Some(Obj(nodes + [n]))
    case Arr(elems, curr, len) =>
      if curr == 0 then Some(Arr(elems + [Obj([n])], 1, len))
      else if elems != [] && elems[|elems| - 1].Obj? then
        Some(Arr(elems[..|elems| - 1] + [Obj(elems[|elems| - 1].nodes + [n])], curr + 1, len))
      else None
  }

  /** `MarkArrStart`: every record but the last is checked against the first. */
  function MarkStart(v: Value): Option<Value> {
    if !v.Arr? then None
    else if v.len == -1 && v.curr > 0 then Some(Arr(v.elems, 0, v.curr))
    else if v.len != v.curr then None
    else Some(Arr(v.elems, 0, v.len))
  }

  /** The node opened last inside a value. */
  function LastNode(v: Value): Option<Node> {
    match v
    case Leaf(_) => None
    case Obj(nodes) => if nodes == [] then None else Some(nodes[|nodes| - 1])
    case Arr(elems, _, _) =>
      if elems == [] then None
      else
        match elems[|elems| - 1]
        case Obj(nodes) => if nodes == [] then None else Some(nodes[|nodes| - 1])
        case _ => None
  }

  function WithLast(v: Value, n: Node): Value
    requires LastNode(v).Some?
  {
    match v
    case Obj(nodes) => Obj(nodes[..|nodes| - 1] + [n])
    case Arr(elems, curr, len) =>
      var o := elems[|elems| - 1];
      Arr(elems[..|elems| - 1] + [Obj(o.nodes[..|o.nodes| - 1] + [n])], curr, len)
  }

  /** Whether the rightmost path reaches depth d. */
  predicate HasDepth(n: Node, d: nat)
    decreases d
  {
    d == 0 || (n.value.Some? && LastNode(n.value.value).Some? && HasDepth(LastNode(n.value.value).value, d - 1))
  }

  /** The value of the node at depth d on the rightmost path. */
  function ValueAt(n: Node, d: nat): Option<Value>
    requires HasDepth(n, d)
    decreases d
  {
    if d == 0 then n.value else ValueAt(LastNode(n.value.value).value, d - 1)
  }

  function SetAt(n: Node, d: nat, v: Value): Node
    requires HasDepth(n, d)
    decreases d
  {
    if d == 0 then n.(value := Some(v))
    else n.(value := Some(WithLast(n.value.value, SetAt(LastNode(n.value.value).value, d - 1, v))))
  }

  // -- The parser --

  /** `depth` is the height of the stack, so `parent` is the node at that depth. */
  datatype Doc = Doc(root: Node, depth: nat, last: int)

  /** None where the source asserts or follows a null pointer. */
  type Parse = Option<Doc>

  function DelAfter(s: string, c: char): string {
    if s == [] || s[0] == c then [] else [s[0]] + DelAfter(s[1..], c)
  }

  function TrimLeft(s: string): string {
    if s != [] && s[0] == ' ' then TrimLeft(s[1..]) else s
  }

  function TrimRight(s: string): string {
    if s != [] && s[|s| - 1] == ' ' then TrimRight(s[..|s| - 1]) else s
  }

  /** `trim`. */
  function Trim(s: string): string { TrimRight(TrimLeft(s)) }

  /** `find_first_not_of(' ')`, with -1 for none. */
  function FirstNonSpace(s: string): int {
    if s == [] then -1
    else if s[0] != ' ' then 0
    else
      var r := FirstNonSpace(s[1..]);
      if r == -1 then -1 else r + 1
  }

  /** The stack height after `GetParentNodeByIndentDiff`. */
  function Popped(depth: nat, diff: int): (r: Option<nat>)
    ensures r.Some? ==> r.value <= depth
  {
    if diff >= 0 then Some(depth)
    else if (0 - diff) % 2 != 0 || (0 - diff) / 2 > depth then None
    else Some(depth - (0 - diff) / 2)
  }

  /** `parent->value->Insert(node)`, a missing value replaced by `empty` if there is one. */
  function InsertAt(root: Node, d: nat, n: Node, empty: Option<Value>): Option<Node>
    requires HasDepth(root, d)
  {
    var v := ValueAt(root, d);
    var w := if v.Some? then v else empty;
    if w.None? then None
    else
      match Insert(w.value, n)
      case None => None
      case Some(x) => Some(SetAt(root, d, x))
  }

  /** "key: value". */
  function LeafLine(doc: Doc, key: string, data: string, indents: int): Parse
    requires HasDepth(doc.root, doc.depth)
  {
    match Popped(doc.depth, indents - doc.last)
    case None => None
    case Some(d) =>
      DepthBelow(doc.root, d, doc.depth);
      match InsertAt(doc.root, d, Node(key, Some(Leaf(data))), Some(Obj([])))
      case None => None
      case Some(root) => Some(Doc(root, d, indents))
  }

  /** "key:". */
  function OpenLine(doc: Doc, key: string, indents: int): Parse
    requires HasDepth(doc.root, doc.depth)
  {
    var diff := indents - doc.last;
    match Popped(doc.depth, diff)
    case None => None
    case Some(d) =>
      DepthBelow(doc.root, d, doc.depth);
      match InsertAt(doc.root, d, Node(key, None), None)
      case None => None
      case Some(root) => if diff > 0 && diff != 2 then None else Some(Doc(root, d + 1, indents))
  }

  /** "-". */
  function DashLine(doc: Doc, indents: int): Parse
    requires HasDepth(doc.root, doc.depth)
  {
    var v := ValueAt(doc.root, doc.depth);
    match MarkStart(if v.Some? then v.value else Arr([], -1, -1))
    case None => None
    case Some(w) => Some(Doc(SetAt(doc.root, doc.depth, w), doc.depth, indents))
  }

  /** One turn of the loop over lines. */
  function Line(doc: Doc, raw: string): Parse
    requires HasDepth(doc.root, doc.depth)
  {
    var line := DelAfter(raw, '#');
    if line == [] then Some(doc)
    else
      var separate := Split(line, ":");
      var indents := FirstNonSpace(line);
      if |separate| == 2 then LeafLine(doc, Trim(separate[0]), Trim(separate[1]), indents)
      else if |separate| == 1 then OpenLine(doc, Trim(separate[0]), indents)
      else if Trim(line) == "-" then DashLine(doc, indents)
      else None
  }

  lemma {:induction false} DepthBelow(n: Node, d: nat, e: nat)
    requires d <= e && HasDepth(n, e)
    ensures HasDepth(n, d)
    decreases e
  {
    if d > 0 { DepthBelow(LastNode(n.value.value).value, d - 1, e - 1); }
  }

  // -- The rightmost path --

  lemma LastOfWithLast(v: Value, n: Node, m: Node)
    requires LastNode(v).Some?
    ensures LastNode(WithLast(v, n)) == Some(n)
    ensures WithLast(WithLast(v, n), m) == WithLast(v, m)
  {
  }

  /** Setting a value reads back, and setting it again forgets the first. */
  lemma {:induction false} SetReads(n: Node, d: nat, v: Value)
    requires HasDepth(n, d)
    ensures HasDepth(SetAt(n, d, v), d) && ValueAt(SetAt(n, d, v), d) == Some(v)
    decreases d
  {
    if d > 0 {
      var m := LastNode(n.value.value).value;
      SetReads(m, d - 1, v);
      LastOfWithLast(n.value.value, SetAt(m, d - 1, v), m);
    }
  }

  lemma {:induction false} SetTwice(n: Node, d: nat, v: Value, w: Value)
    requires HasDepth(n, d)
    ensures HasDepth(SetAt(n, d, v), d) && SetAt(SetAt(n, d, v), d, w) == SetAt(n, d, w)
    decreases d
  {
    if d > 0 {
      var m := LastNode(n.value.value).value;
      SetReads(m, d - 1, v);
      SetTwice(m, d - 1, v, w);
      LastOfWithLast(n.value.value, SetAt(m, d - 1, v), SetAt(m, d - 1, w));
    }
  }

  /** One level further down is the last node of the value above. */
  lemma {:induction false} StepDown(n: Node, d: nat, m: Node)
    requires HasDepth(n, d) && ValueAt(n, d).Some? && LastNode(ValueAt(n, d).value) == Some(m)
    ensures HasDepth(n, d + 1) && ValueAt(n, d + 1) == m.value
    decreases d
  {
    if d > 0 {
      StepDown(LastNode(n.value.value).value, d - 1, m);
    }
  }

  lemma {:induction false} SetBelow(n: Node, d: nat, m: Node, x: Value)
    requires HasDepth(n, d) && ValueAt(n, d).Some? && LastNode(ValueAt(n, d).value) == Some(m)
    ensures HasDepth(n, d + 1)
    ensures SetAt(n, d + 1, x) == SetAt(n, d, WithLast(ValueAt(n, d).value, m.(value := Some(x))))
    decreases d
  {
    StepDown(n, d, m);
    if d > 0 {
      SetBelow(LastNode(n.value.value).value, d - 1, m, x);
    }
  }

  lemma InsertLast(v: Value, n: Node)
    requires Insert(v, n).Some?
    ensures LastNode(Insert(v, n).value) == Some(n)
  {
  }

  /** The parent the loop works on is always there. */
  lemma LineKeepsDepth(doc: Doc, raw: string)
    requires HasDepth(doc.root, doc.depth)
    ensures var r := Line(doc, raw); r.Some? ==> HasDepth(r.value.root, r.value.depth)
  {
    hide Split, Trim, DelAfter, FirstNonSpace, Insert, MarkStart;
    var line := DelAfter(raw, '#');
    var separate := Split(line, ":");
    var indents := FirstNonSpace(line);
    if line != [] && |separate| == 2 {
      LeafLineFacts(doc, Trim(separate[0]), Trim(separate[1]), indents);
    } else if line != [] && |separate| == 1 {
      OpenLineFacts(doc, Trim(separate[0]), indents);
    } else if line != [] && Trim(line) == "-" {
      DashLineFacts(doc, indents);
    }
  }

  lemma LeafLineFacts(doc: Doc, key: string, data: string, indents: int)
    requires HasDepth(doc.root, doc.depth)
    ensures var r := LeafLine(doc, key, data, indents); r.Some? ==> HasDepth(r.value.root, r.value.depth)
  {
    var p := Popped(doc.depth, indents - doc.last);
    if p.Some? {
      var d := p.value;
      DepthBelow(doc.root, d, doc.depth);
      var v := ValueAt(doc.root, d);
      var x := Insert(if v.Some? then v.value else Obj([]), Node(key, Some(Leaf(data))));
      if x.Some? { SetReads(doc.root, d, x.value); }
    }
  }

  lemma {:induction false} OpenLineFacts(doc: Doc, key: string, indents: int)
    requires HasDepth(doc.root, doc.depth)
    ensures var r := OpenLine(doc, key, indents); r.Some? ==> HasDepth(r.value.root, r.value.depth)
  {
    var p := Popped(doc.depth, indents - doc.last);
    if p.Some? {
      var d := p.value;
      DepthBelow(doc.root, d, doc.depth);
      var v := ValueAt(doc.root, d);
      if v.Some? && Insert(v.value, Node(key, None)).Some? {
        var x := Insert(v.value, Node(key, None)).value;
        SetReads(doc.root, d, x);
        InsertLast(v.value, Node(key, None));
        StepDown(SetAt(doc.root, d, x), d, Node(key, None));
      }
    }
  }

  lemma DashLineFacts(doc: Doc, indents: int)
    requires HasDepth(doc.root, doc.depth)
    ensures var r := DashLine(doc, indents); r.Some? ==> HasDepth(r.value.root, r.value.depth)
  {
    var v := ValueAt(doc.root, doc.depth);
    var w := MarkStart(if v.Some? then v.value else Arr([], -1, -1));
    if w.Some? { SetReads(doc.root, doc.depth, w.value); }
  }

  /** The whole file, line by line. */
  function ParseFrom(doc: Doc, lines: seq<string>): Parse
    requires HasDepth(doc.root, doc.depth)
    decreases |lines|
  {
    if lines == [] then Some(doc)
    else
      match Line(doc, lines[0])
      case None => None
      case Some(next) =>
        LineKeepsDepth(doc, lines[0]);
        ParseFrom(next, lines[1..])
  }

  function NewDoc(path: string): Doc {
    Doc(Node(path, Some(Obj([]))), 0, 0)
  }

  // -- The stack of pointers --

  /** A pointer to a node: the way to it from the root, by record and place in each value. Nodes never move. */
  type Step = (nat, nat)
  type Path = seq<Step>

  function Child(v: Value, s: Step): Option<Node> {
    match v
    case Leaf(_) => None
    case Obj(nodes) => if s.0 == 0 && s.1 < |nodes| then Some(nodes[s.1]) else None
    case Arr(elems, _, _) =>
      if s.0 < |elems| && elems[s.0].Obj? && s.1 < |elems[s.0].nodes| then Some(elems[s.0].nodes[s.1]) else None
  }

  function WithChild(v: Value, s: Step, n: Node): Value
    requires Child(v, s).Some?
  {
    match v
    case Obj(nodes) => Obj(nodes[s.1 := n])
    case Arr(elems, curr, len) => Arr(elems[s.0 := Obj(elems[s.0].nodes[s.1 := n])], curr, len)
  }

  predicate Points(n: Node, p: Path) {
    p == [] || (n.value.Some? && Child(n.value.value, p[0]).Some? && Points(Child(n.value.value, p[0]).value, p[1..]))
  }

  /** The value of the node a pointer points to. */
  function ReadAt(n: Node, p: Path): Option<Value>
    requires Points(n, p)
  {
    if p == [] then n.value else ReadAt(Child(n.value.value, p[0]).value, p[1..])
  }

  /** The tree after that value is replaced. */
  function WriteAt(n: Node, p: Path, v: Value): Node
    requires Points(n, p)
  {
    if p == [] then n.(value := Some(v))
    else n.(value := Some(WithChild(n.value.value, p[0], WriteAt(Child(n.value.value, p[0]).value, p[1..], v))))
  }

  function LastStep(v: Value): Step
    requires LastNode(v).Some?
  {
    match v
    case Obj(nodes) => (0, |nodes| - 1)
    case Arr(elems, _, _) => (|elems| - 1, |elems[|elems| - 1].nodes| - 1)
  }

  /** The rightmost path down to depth d. */
  function LastPath(n: Node, d: nat): (p: Path)
    requires HasDepth(n, d)
    ensures |p| == d
    decreases d
  {
    if d == 0 then [] else [LastStep(n.value.value)] + LastPath(LastNode(n.value.value).value, d - 1)
  }

  lemma LastStepLeads(v: Value, n: Node)
    requires LastNode(v).Some?
    ensures Child(v, LastStep(v)) == LastNode(v) && WithChild(v, LastStep(v), n) == WithLast(v, n)
    ensures LastNode(WithLast(v, n)) == Some(n) && LastStep(WithLast(v, n)) == LastStep(v)
  {
    match v
    case Obj(nodes) =>
      assert nodes[|nodes| - 1 := n] == nodes[..|nodes| - 1] + [n];
    case Arr(elems, _, _) =>
      var o := elems[|elems| - 1].nodes;
      assert o[|o| - 1 := n] == o[..|o| - 1] + [n];
      assert elems[|elems| - 1 := Obj(o[..|o| - 1] + [n])] == elems[..|elems| - 1] + [Obj(o[..|o| - 1] + [n])];
  }

  /** Through the rightmost path one reads and writes the node at that depth. */
  lemma {:induction false} LastPathLeads(n: Node, d: nat, v: Value)
    requires HasDepth(n, d)
    ensures Points(n, LastPath(n, d)) && ReadAt(n, LastPath(n, d)) == ValueAt(n, d)
    ensures WriteAt(n, LastPath(n, d), v) == SetAt(n, d, v)
    decreases d
  {
    hide Child, WithChild, LastStep, LastNode, WithLast;
    if d > 0 {
      var child := LastNode(n.value.value).value;
      LastPathLeads(child, d - 1, v);
      LastStepLeads(n.value.value, SetAt(child, d - 1, v));
      var p := LastPath(n, d);
      assert p[0] == LastStep(n.value.value) && p[1..] == LastPath(child, d - 1);
    }
  }

  /** Writing at depth d leaves the rightmost path as far as it goes. */
  lemma {:induction false} LastPathKept(n: Node, d: nat, e: nat, v: Value)
    requires HasDepth(n, d) && e <= d
    ensures HasDepth(n, e) && HasDepth(SetAt(n, d, v), e) && LastPath(SetAt(n, d, v), e) == LastPath(n, e)
    decreases d
  {
    hide Child, WithChild, LastStep, LastNode, WithLast;
    if e > 0 {
      var child := LastNode(n.value.value).value;
      LastPathKept(child, d - 1, e - 1, v);
      LastStepLeads(n.value.value, SetAt(child, d - 1, v));
    }
  }

  /** One level further down the path goes to the last node of the value there. */
  lemma {:induction false} LastPathDown(n: Node, d: nat, v: Value)
    requires HasDepth(n, d) && ValueAt(n, d) == Some(v) && LastNode(v).Some?
    ensures HasDepth(n, d + 1) && LastPath(n, d + 1) == LastPath(n, d) + [LastStep(v)]
    decreases d
  {
    hide Child, WithChild, LastStep, LastNode, WithLast;
    if d > 0 {
      LastPathDown(LastNode(n.value.value).value, d - 1, v);
    }
  }

  /** Ancestors: the path to a lesser depth is the beginning of the path to a greater one. */
  lemma {:induction false} LastPathPrefix(n: Node, d: nat, e: nat)
    requires HasDepth(n, d) && e <= d
    ensures HasDepth(n, e) && LastPath(n, e) == LastPath(n, d)[..e]
    decreases d
  {
    hide Child, WithChild, LastStep, LastNode, WithLast;
    if e > 0 {
      LastPathPrefix(LastNode(n.value.value).value, d - 1, e - 1);
    }
  }

  /** The loop's variables: the tree, the stack of pointers, the parent pointer, the last indentation. */
  datatype Cursor = Cursor(root: Node, stack: seq<Path>, parent: Path, last: int)

  /** The parent is the node at the stack's height on the rightmost path, and the stack holds its ancestors. */
  ghost predicate OnPath(c: Cursor) {
    && HasDepth(c.root, |c.stack|)
    && c.parent == LastPath(c.root, |c.stack|)
    && forall i :: 0 <= i < |c.stack| ==> c.stack[i] == c.parent[..i]
  }

  function DocOf(c: Cursor): Doc { Doc(c.root, |c.stack|, c.last) }

  /** What one of the loop's turns must leave: the pointers on the path, and the tree and height of `Line`. */
  ghost predicate Follows(r: Option<Cursor>, d: Parse) {
    match r
    case None => d == None
    case Some(c) => OnPath(c) && d == Some(DocOf(c))
  }

  /** `GetParentNodeByIndentDiff`: the loop that pops one pointer for two spaces. */
  method PopParents(stack: seq<Path>, diff: int) returns (r: Option<(seq<Path>, Path)>)
    requires diff < 0
    ensures r == match Popped(|stack|, diff)
                 case None => None
                 case Some(d) => Some((stack[..d], stack[d]))
  {
    if diff % 2 != 0 {
      return None;
    }
    var left, rest, parent := diff, stack, [];
    while left < 0
      invariant left <= 0 && left % 2 == 0 && 2 * (|stack| - |rest|) == left - diff
      invariant |rest| <= |stack| && rest == stack[..|rest|]
      invariant left > diff ==> |rest| < |stack| && parent == stack[|rest|]
    {
      if rest == [] {
        return None;
      }
      parent := rest[|rest| - 1];
      rest := rest[..|rest| - 1];
      left := left + 2;
    }
    return Some((rest, parent));
  }

  /** The stack cut to height d, with a value written at the node the parent then is. */
  lemma {:induction false} CutAndWrite(c: Cursor, d: nat, x: Value, last: int)
    requires OnPath(c) && d <= |c.stack|
    ensures HasDepth(c.root, d)
    ensures var p := c.parent[..d];
            && Points(c.root, p) && ReadAt(c.root, p) == ValueAt(c.root, d)
            && WriteAt(c.root, p, x) == SetAt(c.root, d, x)
            && OnPath(Cursor(WriteAt(c.root, p, x), c.stack[..d], p, last))
  {
    hide Points, ReadAt, WriteAt;
    LastPathPrefix(c.root, |c.stack|, d);
    LastPathLeads(c.root, d, x);
    LastPathKept(c.root, d, d, x);
    var p := c.parent[..d];
    forall i | 0 <= i < d
      ensures c.stack[..d][i] == p[..i]
    {
      assert c.parent[..d][..i] == c.parent[..i];
    }
  }

  /** The node just inserted becomes the parent, the old parent goes on the stack. */
  lemma {:induction false} PushParent(c: Cursor, x: Value, last: int)
    requires OnPath(c) && ValueAt(c.root, |c.stack|) == Some(x) && LastNode(x).Some?
    ensures OnPath(Cursor(c.root, c.stack + [c.parent], c.parent + [LastStep(x)], last))
  {
    var d := |c.stack|;
    LastPathDown(c.root, d, x);
    var stack, parent := c.stack + [c.parent], c.parent + [LastStep(x)];
    forall i | 0 <= i <= d
      ensures stack[i] == parent[..i]
    {
      if i == d {
        assert parent[..d] == c.parent;
      } else {
        assert parent[..i] == c.parent[..i];
      }
    }
  }

  /** Where a line with this indentation goes. */
  method Settle(c: Cursor, indents: int) returns (r: Option<(seq<Path>, Path)>)
    requires OnPath(c)
    ensures r == match Popped(|c.stack|, indents - c.last)
                 case None => None
                 case Some(d) => Some((c.stack[..d], c.parent[..d]))
  {
    if indents - c.last < 0 {
      r := PopParents(c.stack, indents - c.last);
    } else {
      assert c.stack[..|c.stack|] == c.stack && c.parent[..|c.stack|] == c.parent;
      r := Some((c.stack, c.parent));
    }
  }

  /** "key: value". */
  method TakeLeaf(c: Cursor, key: string, data: string, indents: int) returns (r: Option<Cursor>)
    requires OnPath(c)
    ensures Follows(r, LeafLine(DocOf(c), key, data, indents))
  {
    hide OnPath, ReadAt, WriteAt, Points, SetAt, ValueAt, Insert, Popped, HasDepth;
    KnownDepth(c);
    var place := Settle(c, indents);
    if place.None? {
      return None;
    }
    var (stack, parent) := place.value;
    CutAndWrite(c, |stack|, Obj([]), indents);
    var v := ReadAt(c.root, parent);
    var x := Insert(if v.Some? then v.value else Obj([]), Node(key, Some(Leaf(data))));
    if x.None? {
      return None;
    }
    CutAndWrite(c, |stack|, x.value, indents);
    return Some(Cursor(WriteAt(c.root, parent, x.value), stack, parent, indents));
  }

  /** "key:". */
  method TakeOpen(c: Cursor, key: string, indents: int) returns (r: Option<Cursor>)
    requires OnPath(c)
    ensures Follows(r, OpenLine(DocOf(c), key, indents))
  {
    hide OnPath, ReadAt, WriteAt, Points, SetAt, ValueAt, Insert, Popped, HasDepth;
    KnownDepth(c);
    var place := Settle(c, indents);
    if place.None? {
      return None;
    }
    var (stack, parent) := place.value;
    CutAndWrite(c, |stack|, Obj([]), indents);
    var v := ReadAt(c.root, parent);
    if v.None? {
      return None;
    }
    var x := Insert(v.value, Node(key, None));
    if x.None? {
      return None;
    }
    CutAndWrite(c, |stack|, x.value, indents);
    var root := WriteAt(c.root, parent, x.value);
    InsertLast(v.value, Node(key, None));
    SetReads(c.root, |stack|, x.value);
    PushParent(Cursor(root, stack, parent, indents), x.value, indents);
    if indents - c.last > 0 && indents - c.last != 2 {
      return None;
    }
    return Some(Cursor(root, stack + [parent], parent + [LastStep(x.value)], indents));
  }

  /** "-". */
  method TakeDash(c: Cursor, indents: int) returns (r: Option<Cursor>)
    requires OnPath(c)
    ensures Follows(r, DashLine(DocOf(c), indents))
  {
    hide OnPath, ReadAt, WriteAt, Points, SetAt, ValueAt, MarkStart, HasDepth;
    KnownDepth(c);
    WholePath(c);
    CutAndWrite(c, |c.stack|, Obj([]), indents);
    var v := ReadAt(c.root, c.parent);
    var x := MarkStart(if v.Some? then v.value else Arr([], -1, -1));
    if x.None? {
      return None;
    }
    CutAndWrite(c, |c.stack|, x.value, indents);
    return Some(Cursor(WriteAt(c.root, c.parent, x.value), c.stack, c.parent, indents));
  }

  lemma KnownDepth(c: Cursor)
    requires OnPath(c)
    ensures HasDepth(c.root, |c.stack|) && |c.parent| == |c.stack|
  {
  }

  lemma WholePath(c: Cursor)
    requires OnPath(c)
    ensures c.parent[..|c.stack|] == c.parent && c.stack[..|c.stack|] == c.stack
  {
  }

  /** One turn of the loop: the stack keeps holding the ancestors of the parent. */
  method TakeLine(c: Cursor, raw: string) returns (r: Option<Cursor>)
    requires OnPath(c)
    ensures Follows(r, Line(DocOf(c), raw))
  {
    hide LeafLine, OpenLine, DashLine, Split, Trim, DelAfter, FirstNonSpace;
    var line := DelAfter(raw, '#');
    if line == [] {
      return Some(c);
    }
    var separate := SplitLoop(line, ":");
    var indents := FirstNonSpace(line);
    if |separate| == 2 {
      r := TakeLeaf(c, Trim(separate[0]), Trim(separate[1]), indents);
    } else if |separate| == 1 {
      r := TakeOpen(c, Trim(separate[0]), indents);
    } else if Trim(line) == "-" {
      r := TakeDash(c, indents);
    } else {
      r := None;
    }
  }

  // -- The file --

  const NEWLINE: char := '\n'

  /** Where the first line of a text ends. */
  function LineEnd(text: string): (n: nat)
    ensures n <= |text| && NEWLINE !in text[..n] && (n < |text| ==> text[n] == NEWLINE)
  {
    if text == [] || text[0] == NEWLINE then 0
    else
      var n := LineEnd(text[1..]) + 1;
      assert text[..n] == [text[0]] + text[1..][..n - 1];
      n
  }

  /** The lines `getline` yields: a last one without a line end counts unless it is empty. */
  function LinesOf(text: string): (lines: seq<string>)
    ensures forall i :: 0 <= i < |lines| ==> NEWLINE !in lines[i]
    decreases |text|
  {
    if text == [] then []
    else
      var n := LineEnd(text);
      [text[..n]] + if n == |text| then [] else LinesOf(text[n + 1..])
  }

  /** A file that holds these lines. */
  function FileText(lines: seq<string>): string {
    if lines == [] then [] else lines[0] + [NEWLINE] + FileText(lines[1..])
  }

  lemma {:induction false} LineEndAfter(line: string, rest: string)
    requires NEWLINE !in line
    ensures LineEnd(line + [NEWLINE] + rest) == |line|
  {
    var text := line + [NEWLINE] + rest;
    if line != [] {
      assert text[0] == line[0] && line[0] in line;
      assert text[1..] == line[1..] + [NEWLINE] + rest;
      LineEndAfter(line[1..], rest);
    }
  }

  lemma {:induction false} FileLines(lines: seq<string>)
    requires forall i :: 0 <= i < |lines| ==> NEWLINE !in lines[i]
    ensures LinesOf(FileText(lines)) == lines
  {
    if lines != [] {
      var line, rest := lines[0], FileText(lines[1..]);
      var text := FileText(lines);
      LineEndAfter(line, rest);
      assert text[..|line|] == line && text[|line| + 1..] == rest;
      FileLines(lines[1..]);
    }
  }

  /** A file gives its lines back exactly when none of them holds a line end. */
  lemma FileLinesIff(lines: seq<string>)
    ensures LinesOf(FileText(lines)) == lines <==> forall i :: 0 <= i < |lines| ==> NEWLINE !in lines[i]
  {
    if forall i :: 0 <= i < |lines| ==> NEWLINE !in lines[i] {
      FileLines(lines);
    }
  }

  /** A last line without a line end is a line like any other. */
  lemma {:induction false} LastLineUnended(lines: seq<string>, last: string)
    requires (forall i :: 0 <= i < |lines| ==> NEWLINE !in lines[i]) && last != [] && NEWLINE !in last
    ensures LinesOf(FileText(lines) + last) == lines + [last]
  {
    var text := FileText(lines) + last;
    if lines == [] {
      assert text == last;
      assert LineEnd(last) == |last|;
      assert last[..|last|] == last;
    } else {
      var line, rest := lines[0], FileText(lines[1..]) + last;
      assert text == line + [NEWLINE] + rest;
      LineEndAfter(line, rest);
      assert text[..|line|] == line && text[|line| + 1..] == rest;
      LastLineUnended(lines[1..], last);
      assert [line] + (lines[1..] + [last]) == lines + [last];
    }
  }

  /** What `ParseYaml` makes of a file; None where the source asserts or follows a null pointer. */
  function ParsedFile(path: string, text: string): Option<Node> {
    match ParseFrom(NewDoc(path), LinesOf(text))
    case None => None
    case Some(doc) => Some(doc.root)
  }

  /** `getline` at a position that is not the end of the file. */
  method GetLine(text: string, pos: nat) returns (line: string, next: nat)
    requires pos < |text|
    ensures pos < next <= |text| && LinesOf(text[pos..]) == [line] + LinesOf(text[next..])
  {
    ghost var n := LineEnd(text[pos..]);
    var i := pos;
    while i < |text| && text[i] != NEWLINE
      invariant pos <= i <= pos + n
    {
      i := i + 1;
    }
    assert i == pos + n;
    line := text[pos..i];
    assert line == text[pos..][..n];
    if i == |text| {
      next := i;
    } else {
      next := i + 1;
      assert text[pos..][n + 1..] == text[next..];
    }
  }

  /** `ParseYaml` over the text of the file. */
  method ParseYaml(path: string, text: string) returns (r: Option<Node>)
    ensures r == ParsedFile(path, text)
  {
    hide Line, LinesOf, OnPath;
    var c := Cursor(Node(path, Some(Obj([]))), [], [], 0);
    ghost var goal := ParseFrom(NewDoc(path), LinesOf(text));
    StartsOnPath(c);
    var pos := 0;
    assert text[0..] == text;
    while pos < |text|
      invariant 0 <= pos <= |text| && OnPath(c) && HasDepth(c.root, |c.stack|)
      invariant ParseFrom(DocOf(c), LinesOf(text[pos..])) == goal
    {
      var line, next := GetLine(text, pos);
      ghost var rest := LinesOf(text[next..]);
      assert ([line] + rest)[1..] == rest;
      LineKeepsDepth(DocOf(c), line);
      var taken := TakeLine(c, line);
      if taken.None? {
        return None;
      }
      c := taken.value;
      KnownDepth(c);
      pos := next;
    }
    NoText();
    assert text[pos..] == [];
    return Some(c.root);
  }

  lemma StartsOnPath(c: Cursor)
    requires c.stack == [] && c.parent == []
    ensures OnPath(c)
  {
  }

  lemma NoText()
    ensures LinesOf([]) == []
  {
  }
}
