/** A printer with two spaces a level, and the proof that the parser inverts it. */
module YamlRoundTrip {
  import opened Wrappers
  import opened StrUtil
  import opened Yaml

  /** A document: leaves, nested objects, arrays of records of leaves. */
  datatype Field =
    | LeafField(key: string, data: string)
    | ObjField(key: string, fields: seq<Field>)
    | ArrField(key: string, records: seq<seq<(string, string)>>)

  // -- The tree a document stands for --

  function LeafNodes(r: seq<(string, string)>): (ns: seq<Node>)
    ensures |ns| == |r|
  {
    if r == [] then [] else [Node(r[0].0, Some(Leaf(r[0].1)))] + LeafNodes(r[1..])
  }

  function RecordValues(rs: seq<seq<(string, string)>>): (vs: seq<Value>)
    ensures |vs| == |rs|
  {
    if rs == [] then [] else [Obj(LeafNodes(rs[0]))] + RecordValues(rs[1..])
  }

  /** The record length is known to the array once a second record has started. */
  function ArrayValue(rs: seq<seq<(string, string)>>): Value
    requires rs != []
  {
    Arr(RecordValues(rs), |rs[|rs| - 1]|, if |rs| == 1 then -1 else |rs[0]|)
  }

  function ToNode(f: Field): Node
    requires Printable(f)
    decreases f, 1
  {
    match f
    case LeafField(k, s) => Node(k, Some(Leaf(s)))
    case ObjField(k, fs) => Node(k, Some(Obj(ToNodes(fs))))
    case ArrField(k, rs) => Node(k, Some(ArrayValue(rs)))
  }

  function ToNodes(fs: seq<Field>): seq<Node>
    requires AllPrintable(fs)
    decreases fs, 0
  {
    if fs == [] then [] else [ToNode(fs[0])] + ToNodes(fs[1..])
  }

  // -- What can be printed --

  predicate PlainText(s: string) {
    && (forall i :: 0 <= i < |s| ==> s[i] != ':' && s[i] != '#' && s[i] != NEWLINE)
    && (s != [] ==> s[0] != ' ' && s[|s| - 1] != ' ')
  }

  predicate PlainKey(s: string) { s != [] && PlainText(s) }

  predicate PlainRecord(r: seq<(string, string)>) {
    forall i :: 0 <= i < |r| ==> PlainKey(r[i].0) && PlainText(r[i].1)
  }

  /** Nested objects start with a leaf; records are not empty and equally long. */
  predicate Printable(f: Field)
    decreases f, 1
  {
    PlainKey(f.key) &&
    match f
    case LeafField(_, s) => PlainText(s)
    case ObjField(_, fs) => fs != [] && fs[0].LeafField? && AllPrintable(fs)
    case ArrField(_, rs) =>
      && rs != [] && rs[0] != []
      && (forall i :: 0 <= i < |rs| ==> |rs[i]| == |rs[0]| && PlainRecord(rs[i]))
  }

  predicate AllPrintable(fs: seq<Field>)
    decreases fs, 0
  {
    fs == [] || (Printable(fs[0]) && AllPrintable(fs[1..]))
  }

  // -- The printer --

  function Spaces(n: nat): (s: string)
    ensures |s| == n && forall i :: 0 <= i < n ==> s[i] == ' '
  {
    seq(n, _ => ' ')
  }

  function LeafText(d: nat, key: string, data: string): string { Spaces(2 * d) + key + ":" + (" " + data) }
  function OpenText(d: nat, key: string): string { Spaces(2 * d) + key + ":" }
  function DashText(d: nat): string { Spaces(2 * d) + "-" }

  function RecordLines(r: seq<(string, string)>, d: nat): seq<string> {
    if r == [] then [] else [LeafText(d, r[0].0, r[0].1)] + RecordLines(r[1..], d)
  }

  function ArrayLines(rs: seq<seq<(string, string)>>, d: nat): seq<string> {
    if rs == [] then [] else [DashText(d)] + RecordLines(rs[0], d) + ArrayLines(rs[1..], d)
  }

  function FieldLines(f: Field, d: nat): seq<string>
    decreases f, 1
  {
    match f
    case LeafField(k, s) => [LeafText(d, k, s)]
    case ObjField(k, fs) => [OpenText(d, k)] + Lines(fs, d + 1)
    case ArrField(k, rs) => [OpenText(d, k)] + ArrayLines(rs, d + 1)
  }

  function Lines(fs: seq<Field>, d: nat): seq<string>
    decreases fs, 0
  {
    if fs == [] then [] else FieldLines(fs[0], d) + Lines(fs[1..], d)
  }

  // -- How the parser reads one printed line --

  lemma {:induction false} NothingDeleted(s: string)
    requires forall i :: 0 <= i < |s| ==> s[i] != '#'
    ensures DelAfter(s, '#') == s
  {
    if s != [] { NothingDeleted(s[1..]); }
  }

  lemma {:induction false} LeadingSpaces(n: nat, s: string)
    requires s != [] && s[0] != ' '
    ensures FirstNonSpace(Spaces(n) + s) == n && TrimLeft(Spaces(n) + s) == s
  {
    if n == 0 {
      assert Spaces(0) + s == s;
    } else {
      assert (Spaces(n) + s)[1..] == Spaces(n - 1) + s;
      LeadingSpaces(n - 1, s);
    }
  }

  lemma TrimIndented(n: nat, s: string)
    requires s != [] && s[0] != ' ' && s[|s| - 1] != ' '
    ensures Trim(Spaces(n) + s) == s
  {
    LeadingSpaces(n, s);
  }

  lemma TrimData(s: string)
    requires PlainText(s)
    ensures Trim(" " + s) == s
  {
    if s == [] {
      assert " " + s == [' '] && [' '][1..] == [];
      assert TrimLeft([' ']) == TrimLeft([]) == [];
    } else {
      assert " " == Spaces(1);
      TrimIndented(1, s);
    }
  }

  lemma NoColon(s: string)
    requires forall i :: 0 <= i < |s| ==> s[i] != ':'
    ensures Absent(s, ":")
  {
    forall q: nat | q <= |s|
      ensures !MatchAt(s, ":", q)
    {
      assert q < |s| ==> s[q..q + 1][0] == s[q];
    }
  }

  /** "key:" with something behind it is read as a leaf. */
  lemma LeafReadAt(doc: Doc, n: nat, key: string, b: string)
    requires HasDepth(doc.root, doc.depth) && PlainKey(key)
    requires b != [] && forall i :: 0 <= i < |b| ==> b[i] != ':' && b[i] != '#'
    ensures Line(doc, Spaces(n) + key + ":" + b) == LeafLine(doc, key, Trim(b), n)
  {
    hide LeafLine;
    var a := Spaces(n) + key;
    var line := a + ":" + b;
    NothingDeleted(line);
    assert line == Spaces(n) + (key + ":" + b);
    LeadingSpaces(n, key + ":" + b);
    var tokens := [a, b];
    NoColon(a);
    NoColon(b);
    assert tokens[1..] == [b];
    assert Join(tokens, ":") == line;
    SplitOfJoin(tokens, ":");
    TrimIndented(n, key);
  }

  /** "key: value" is read as that leaf at that indentation. */
  lemma LeafRead(doc: Doc, d: nat, key: string, data: string)
    requires HasDepth(doc.root, doc.depth) && PlainKey(key) && PlainText(data)
    ensures Line(doc, LeafText(d, key, data)) == LeafLine(doc, key, data, 2 * d)
  {
    hide LeafLine, Line, Trim;
    LeafReadAt(doc, 2 * d, key, " " + data);
    TrimData(data);
  }

  lemma OpenReadAt(doc: Doc, n: nat, key: string)
    requires HasDepth(doc.root, doc.depth) && PlainKey(key)
    ensures Line(doc, Spaces(n) + key + ":") == OpenLine(doc, key, n)
  {
    hide OpenLine;
    var a := Spaces(n) + key;
    var line := a + ":";
    NothingDeleted(line);
    assert line == Spaces(n) + (key + ":");
    LeadingSpaces(n, key + ":");
    NoColon(a);
    NoColon("");
    var tokens := [a, ""];
    assert tokens[1..] == [""];
    assert Join(tokens, ":") == line;
    PiecesOfJoin(tokens, ":");
    assert NonEmpty(tokens) == [a] by { assert NonEmpty([""]) == []; }
    assert tokens[..1][0] != [];
    TrimIndented(n, key);
  }

  /** "key:" is read as that node opened at that indentation. */
  lemma OpenRead(doc: Doc, d: nat, key: string)
    requires HasDepth(doc.root, doc.depth) && PlainKey(key)
    ensures Line(doc, OpenText(d, key)) == OpenLine(doc, key, 2 * d)
  {
    hide OpenLine, Line;
    OpenReadAt(doc, 2 * d, key);
  }

  /** "-" is read as the start of a record. */
  lemma DashRead(doc: Doc, d: nat)
    requires HasDepth(doc.root, doc.depth)
    ensures Line(doc, DashText(d)) == DashLine(doc, 2 * d)
  {
    hide DashLine;
    var line := DashText(d);
    NothingDeleted(line);
    LeadingSpaces(2 * d, "-");
    NoColon(line);
    assert Join([line], ":") == line;
    SplitOfJoin([line], ":");
    TrimIndented(2 * d, "-");
  }

  /** A line without a colon yields no token at all, so the branch for a bare value is never taken. */
  lemma NoColonNoToken(line: string)
    requires forall i :: 0 <= i < |line| ==> line[i] != ':'
    ensures Split(line, ":") == []
  {
    NoColon(line);
    FindAbsent(line, ":");
    assert Pieces(line, ":") == [line];
  }

  // -- How it reads many --

  lemma {:induction false} ParseConcat(doc: Doc, a: seq<string>, b: seq<string>)
    requires HasDepth(doc.root, doc.depth)
    ensures var r := ParseFrom(doc, a);
            && (r.Some? ==> HasDepth(r.value.root, r.value.depth))
            && ParseFrom(doc, a + b) == if r.None? then None else ParseFrom(r.value, b)
    decreases |a|
  {
    hide Line;
    if a == [] {
      assert a + b == b;
    } else {
      assert (a + b)[0] == a[0] && (a + b)[1..] == a[1..] + b;
      LineKeepsDepth(doc, a[0]);
      var m := Line(doc, a[0]);
      if m.Some? { ParseConcat(m.value, a[1..], b); }
    }
  }

  lemma OneLine(doc: Doc, line: string, rest: seq<string>)
    requires HasDepth(doc.root, doc.depth) && Line(doc, line).Some?
    ensures var m := Line(doc, line).value;
            HasDepth(m.root, m.depth) && ParseFrom(doc, [line] + rest) == ParseFrom(m, rest)
  {
    hide Line;
    LineKeepsDepth(doc, line);
    assert ([line] + rest)[1..] == rest;
  }

  /** Between two fields of depth d: the stack height is the depth of the open node, half the last indentation. */
  ghost predicate Settled(doc: Doc, d: nat) {
    HasDepth(doc.root, doc.depth) && doc.depth >= d && doc.last == 2 * doc.depth
  }

  /** Just after "key:": the stack is one higher than the indentation says. */
  ghost predicate Opened(doc: Doc, d: nat) {
    HasDepth(doc.root, doc.depth) && doc.depth == d && doc.last == 2 * d - 2 && ValueAt(doc.root, d) == None
  }

  ghost predicate Holds(doc: Doc, d: nat, ns: seq<Node>) {
    HasDepth(doc.root, d) && ValueAt(doc.root, d) == Some(Obj(ns))
  }

  /** A leaf line puts its leaf into the object at its depth, closing what is open below. */
  lemma {:induction false} LeafStep(doc: Doc, d: nat, ns: seq<Node>, key: string, data: string)
    requires PlainKey(key) && PlainText(data)
    requires (Settled(doc, d) && Holds(doc, d, ns)) || (Opened(doc, d) && ns == [])
    ensures HasDepth(doc.root, d)
    ensures Line(doc, LeafText(d, key, data))
         == Some(Doc(SetAt(doc.root, d, Obj(ns + [Node(key, Some(Leaf(data)))])), d, 2 * d))
  {
    LeafRead(doc, d, key, data);
    if Settled(doc, d) {
      assert Popped(doc.depth, 2 * d - doc.last) == Some(d);
    }
  }

  /** "key:" opens a node in the object at its depth. */
  lemma {:induction false} OpenStep(doc: Doc, d: nat, ns: seq<Node>, key: string)
    requires PlainKey(key) && Settled(doc, d) && Holds(doc, d, ns)
    ensures Line(doc, OpenText(d, key)) == Some(Doc(SetAt(doc.root, d, Obj(ns + [Node(key, None)])), d + 1, 2 * d))
    ensures Opened(Line(doc, OpenText(d, key)).value, d + 1)
  {
    OpenRead(doc, d, key);
    hide Line;
    assert Popped(doc.depth, 2 * d - doc.last) == Some(d);
    var w, m := Obj(ns + [Node(key, None)]), Node(key, None);
    SetReads(doc.root, d, w);
    StepDown(SetAt(doc.root, d, w), d, m);
  }

  /** A key on its own cannot come first in a nested object: the source follows a null pointer. */
  lemma NestedMustStartWithLeaf(doc: Doc, d: nat, key: string)
    requires PlainKey(key) && Opened(doc, d)
    ensures Line(doc, OpenText(d, key)) == None
  {
    OpenRead(doc, d, key);
  }

  /** Filling the node just opened is the same as inserting it full. */
  lemma FillOpened(root: Node, d: nat, ns: seq<Node>, key: string, x: Value)
    requires HasDepth(root, d)
    ensures var o := SetAt(root, d, Obj(ns + [Node(key, None)]));
            HasDepth(o, d + 1) && SetAt(o, d + 1, x) == SetAt(root, d, Obj(ns + [Node(key, Some(x))]))
  {
    var w, m := Obj(ns + [Node(key, None)]), Node(key, None);
    SetReads(root, d, w);
    SetBelow(SetAt(root, d, w), d, m, x);
    assert WithLast(w, m.(value := Some(x))) == Obj(ns + [Node(key, Some(x))]);
    SetTwice(root, d, w, Obj(ns + [Node(key, Some(x))]));
  }

  // -- Records and arrays --

  /** The array a record is being read into. */
  ghost predicate Reading(doc: Doc, d: nat, v: Value) {
    HasDepth(doc.root, d) && doc.depth == d && doc.last == 2 * d && ValueAt(doc.root, d) == Some(v) && v.Arr?
  }

  lemma RecordLeafStep(doc: Doc, d: nat, v: Value, key: string, data: string)
    requires PlainKey(key) && PlainText(data) && Reading(doc, d, v)
    requires Insert(v, Node(key, Some(Leaf(data)))).Some?
    ensures var w := Insert(v, Node(key, Some(Leaf(data)))).value;
            && Line(doc, LeafText(d, key, data)) == Some(Doc(SetAt(doc.root, d, w), d, 2 * d))
            && Reading(Doc(SetAt(doc.root, d, w), d, 2 * d), d, w)
  {
    LeafRead(doc, d, key, data);
    SetReads(doc.root, d, Insert(v, Node(key, Some(Leaf(data)))).value);
  }

  /** An array whose open record has the fields ns so far. */
  function OpenArray(done: seq<Value>, ns: seq<Node>, len: int): Value {
    if ns == [] then Arr(done, 0, len) else Arr(done + [Obj(ns)], |ns|, len)
  }

  lemma OpenArrayInsert(done: seq<Value>, ns: seq<Node>, len: int, n: Node)
    ensures Insert(OpenArray(done, ns, len), n) == Some(OpenArray(done, ns + [n], len))
  {
    if ns == [] {
      assert ns + [n] == [n];
    } else {
      assert (done + [Obj(ns)])[..|done|] == done;
    }
  }

  lemma {:induction false} RecordRead(
      doc: Doc, d: nat, done: seq<Value>, ns: seq<Node>, len: int, r: seq<(string, string)>)
    requires PlainRecord(r) && Reading(doc, d, OpenArray(done, ns, len))
    ensures ParseFrom(doc, RecordLines(r, d))
         == Some(Doc(SetAt(doc.root, d, OpenArray(done, ns + LeafNodes(r), len)), d, 2 * d))
    decreases |r|
  {
    hide Insert, OpenArray, LeafText, SetAt, ValueAt, HasDepth, ParseFrom, RecordLines, LeafNodes, PlainKey, PlainText;
    RecordUnfolded(ns, r, d);
    if r == [] {
      NoLines(doc);
      SetSame(doc.root, d, OpenArray(done, ns, len));
    } else {
      var n := Node(r[0].0, Some(Leaf(r[0].1)));
      var v, w := OpenArray(done, ns, len), OpenArray(done, ns + [n], len);
      OpenArrayInsert(done, ns, len, n);
      RecordLeafStep(doc, d, v, r[0].0, r[0].1);
      OneLine(doc, LeafText(d, r[0].0, r[0].1), RecordLines(r[1..], d));
      RecordRead(Doc(SetAt(doc.root, d, w), d, 2 * d), d, done, ns + [n], len, r[1..]);
      SetTwice(doc.root, d, w, OpenArray(done, ns + LeafNodes(r), len));
    }
  }

  lemma {:induction false} RecordUnfolded(ns: seq<Node>, r: seq<(string, string)>, d: nat)
    ensures r == [] ==> RecordLines(r, d) == [] && ns + LeafNodes(r) == ns
    ensures r != [] ==> RecordLines(r, d) == [LeafText(d, r[0].0, r[0].1)] + RecordLines(r[1..], d)
    ensures r != [] ==> ns + [Node(r[0].0, Some(Leaf(r[0].1)))] + LeafNodes(r[1..]) == ns + LeafNodes(r)
  {
    hide LeafText;
  }

  lemma {:induction false} SetSame(n: Node, d: nat, v: Value)
    requires HasDepth(n, d) && ValueAt(n, d) == Some(v)
    ensures SetAt(n, d, v) == n
    decreases d
  {
    if d > 0 {
      SetSame(LastNode(n.value.value).value, d - 1, v);
      WithSame(n.value.value);
    }
  }

  lemma WithSame(v: Value)
    requires LastNode(v).Some?
    ensures WithLast(v, LastNode(v).value) == v
  {
    match v
    case Obj(nodes) => assert nodes == nodes[..|nodes| - 1] + [nodes[|nodes| - 1]];
    case Arr(elems, _, _) =>
      var o := elems[|elems| - 1];
      assert o.nodes == o.nodes[..|o.nodes| - 1] + [o.nodes[|o.nodes| - 1]];
      assert elems == elems[..|elems| - 1] + [o];
  }

  /** What one more record makes of the array value. */
  lemma {:induction false} ArrayRead(
      doc: Doc, d: nat, first: nat, done: seq<seq<(string, string)>>, rs: seq<seq<(string, string)>>)
    requires rs != [] && first > 0
    requires forall i :: 0 <= i < |done| ==> |done[i]| == first
    requires forall i :: 0 <= i < |rs| ==> |rs[i]| == first && PlainRecord(rs[i])
    requires if done == [] then Opened(doc, d) else Reading(doc, d, ArrayValue(done))
    ensures HasDepth(doc.root, d)
    ensures ParseFrom(doc, ArrayLines(rs, d)) == Some(Doc(SetAt(doc.root, d, ArrayValue(done + rs)), d, 2 * d))
    decreases |rs|
  {
    hide Line, Insert, LeafText, DashText, PlainRecord, SetAt;
    var len := if done == [] then -1 else first;
    var r, rest := rs[0], rs[1..];
    var vs := RecordValues(done);
    DashStep(doc, d, first, done);
    var w := OpenArray(vs, [], len);
    var next := Doc(SetAt(doc.root, d, w), d, 2 * d);
    OneLine(doc, DashText(d), RecordLines(r, d) + ArrayLines(rest, d));
    assert [DashText(d)] + RecordLines(r, d) + ArrayLines(rest, d)
        == [DashText(d)] + (RecordLines(r, d) + ArrayLines(rest, d));
    RecordRead(next, d, vs, [], len, r);
    ParseConcat(next, RecordLines(r, d), ArrayLines(rest, d));
    RecordDone(done, r, first);
    var x := ArrayValue(done + [r]);
    SetTwice(doc.root, d, w, x);
    SetReads(doc.root, d, x);
    var after := Doc(SetAt(doc.root, d, x), d, 2 * d);
    if rest == [] {
      assert done + rs == done + [r];
    } else {
      ArrayRead(after, d, first, done + [r], rest);
      assert done + [r] + rest == done + rs;
      SetTwice(doc.root, d, x, ArrayValue(done + rs));
    }
  }

  lemma DashStep(doc: Doc, d: nat, first: nat, done: seq<seq<(string, string)>>)
    requires first > 0 && forall i :: 0 <= i < |done| ==> |done[i]| == first
    requires if done == [] then Opened(doc, d) else Reading(doc, d, ArrayValue(done))
    ensures HasDepth(doc.root, d)
    ensures var w := OpenArray(RecordValues(done), [], if done == [] then -1 else first);
            && Line(doc, DashText(d)) == Some(Doc(SetAt(doc.root, d, w), d, 2 * d))
            && Reading(Doc(SetAt(doc.root, d, w), d, 2 * d), d, w)
  {
    DashRead(doc, d);
    SetReads(doc.root, d, OpenArray(RecordValues(done), [], if done == [] then -1 else first));
  }

  lemma RecordDone(done: seq<seq<(string, string)>>, r: seq<(string, string)>, first: nat)
    requires |r| == first > 0 && forall i :: 0 <= i < |done| ==> |done[i]| == first
    ensures OpenArray(RecordValues(done), [] + LeafNodes(r), if done == [] then -1 else first) == ArrayValue(done + [r])
  {
    RecordValuesSnoc(done, r);
    assert [] + LeafNodes(r) == LeafNodes(r);
  }

  lemma {:induction false} RecordValuesSnoc(done: seq<seq<(string, string)>>, r: seq<(string, string)>)
    ensures RecordValues(done + [r]) == RecordValues(done) + [Obj(LeafNodes(r))]
  {
    if done != [] {
      assert (done + [r])[1..] == done[1..] + [r];
      RecordValuesSnoc(done[1..], r);
    } else {
      assert done + [r] == [r];
    }
  }

  // -- Documents --

  /** The printed fields, read into an object that holds ns, leave it holding ns and the fields. */
  lemma {:induction false} FieldsRead(doc: Doc, d: nat, ns: seq<Node>, fs: seq<Field>)
    requires AllPrintable(fs) && fs != []
    requires (Settled(doc, d) && Holds(doc, d, ns)) || (Opened(doc, d) && ns == [] && fs[0].LeafField?)
    ensures HasDepth(doc.root, d)
    ensures var r := ParseFrom(doc, Lines(fs, d));
            && r.Some? && Settled(r.value, d)
            && r.value.root == SetAt(doc.root, d, Obj(ns + ToNodes(fs)))
    decreases fs, 1
  {
    hide SetAt, ValueAt, HasDepth, ParseFrom, ToNode, ToNodes, FieldLines, Lines, Printable;
    var f, rest := fs[0], fs[1..];
    var v, all := Obj(ns + [ToNode(f)]), Obj(ns + ToNodes(fs));
    Unfolded(ns, fs, d);
    FieldRead(doc, d, ns, f);
    ParseConcat(doc, FieldLines(f, d), Lines(rest, d));
    var m := ParseFrom(doc, FieldLines(f, d)).value;
    if rest == [] {
      NoLines(m);
    } else {
      SetReads(doc.root, d, v);
      FieldsRead(m, d, ns + [ToNode(f)], rest);
      SetTwice(doc.root, d, v, all);
    }
  }

  lemma {:induction false} Unfolded(ns: seq<Node>, fs: seq<Field>, d: nat)
    requires AllPrintable(fs) && fs != []
    ensures Lines(fs, d) == FieldLines(fs[0], d) + Lines(fs[1..], d)
    ensures ns + [ToNode(fs[0])] + ToNodes(fs[1..]) == ns + ToNodes(fs)
    ensures fs[1..] == [] ==> Lines(fs[1..], d) == [] && ns + [ToNode(fs[0])] == ns + ToNodes(fs)
  {
    hide ToNode, FieldLines, Printable;
  }

  lemma NoLines(doc: Doc)
    requires HasDepth(doc.root, doc.depth)
    ensures ParseFrom(doc, []) == Some(doc)
  {
  }

  lemma {:induction false} FieldRead(doc: Doc, d: nat, ns: seq<Node>, f: Field)
    requires Printable(f)
    requires (Settled(doc, d) && Holds(doc, d, ns)) || (Opened(doc, d) && ns == [] && f.LeafField?)
    ensures HasDepth(doc.root, d)
    ensures var r := ParseFrom(doc, FieldLines(f, d));
            && r.Some? && Settled(r.value, d)
            && r.value.root == SetAt(doc.root, d, Obj(ns + [ToNode(f)]))
    decreases f, 0
  {
    hide Line, SetAt, LeafText, OpenText;
    match f
    case LeafField(k, s) =>
      LeafStep(doc, d, ns, k, s);
      OneLine(doc, LeafText(d, k, s), []);
      assert [LeafText(d, k, s)] + [] == [LeafText(d, k, s)];
    case ObjField(k, fs) =>
      OpenStep(doc, d, ns, k);
      var m := Line(doc, OpenText(d, k)).value;
      OneLine(doc, OpenText(d, k), Lines(fs, d + 1));
      FieldsRead(m, d + 1, [], fs);
      assert [] + ToNodes(fs) == ToNodes(fs);
      FillOpened(doc.root, d, ns, k, Obj(ToNodes(fs)));
    case ArrField(k, rs) =>
      OpenStep(doc, d, ns, k);
      var m := Line(doc, OpenText(d, k)).value;
      OneLine(doc, OpenText(d, k), ArrayLines(rs, d + 1));
      ArrayRead(m, d + 1, |rs[0]|, [], rs);
      assert [] + rs == rs;
      FillOpened(doc.root, d, ns, k, ArrayValue(rs));
      SetReads(m.root, d + 1, ArrayValue(rs));
  }

  // -- The printed file --

  ghost predicate OneLineEach(lines: seq<string>) {
    forall i :: 0 <= i < |lines| ==> NEWLINE !in lines[i]
  }

  lemma {:induction false} RecordOnLines(r: seq<(string, string)>, d: nat)
    requires PlainRecord(r)
    ensures OneLineEach(RecordLines(r, d))
  {
    if r != [] {
      RecordOnLines(r[1..], d);
    }
  }

  lemma {:induction false} ArrayOnLines(rs: seq<seq<(string, string)>>, d: nat)
    requires forall i :: 0 <= i < |rs| ==> PlainRecord(rs[i])
    ensures OneLineEach(ArrayLines(rs, d))
  {
    if rs != [] {
      RecordOnLines(rs[0], d);
      ArrayOnLines(rs[1..], d);
    }
  }

  lemma {:induction false} FieldOnLines(f: Field, d: nat)
    requires Printable(f)
    ensures OneLineEach(FieldLines(f, d))
    decreases f, 1
  {
    match f
    case LeafField(_, _) =>
    case ObjField(_, fs) => FieldsOnLines(fs, d + 1);
    case ArrField(_, rs) => ArrayOnLines(rs, d + 1);
  }

  lemma {:induction false} FieldsOnLines(fs: seq<Field>, d: nat)
    requires AllPrintable(fs)
    ensures OneLineEach(Lines(fs, d))
    decreases fs, 0
  {
    if fs != [] {
      FieldOnLines(fs[0], d);
      FieldsOnLines(fs[1..], d);
    }
  }

  function Printed(fs: seq<Field>): string { FileText(Lines(fs, 0)) }

  /** The round trip: parsing the printed file rebuilds the document's tree. */
  lemma ParsePrinted(path: string, fs: seq<Field>)
    requires AllPrintable(fs)
    ensures ParsedFile(path, Printed(fs)) == Some(Node(path, Some(Obj(ToNodes(fs)))))
  {
    hide Line, LinesOf, FileText;
    FieldsOnLines(fs, 0);
    FileLines(Lines(fs, 0));
    if fs != [] {
      FieldsRead(NewDoc(path), 0, [], fs);
      assert [] + ToNodes(fs) == ToNodes(fs);
    }
  }

  /** A line with neither colon nor comment is refused unless it is a dash. */
  lemma BareLineFails(doc: Doc, line: string)
    requires HasDepth(doc.root, doc.depth)
    requires line != [] && Trim(line) != "-" && forall i :: 0 <= i < |line| ==> line[i] != ':' && line[i] != '#'
    ensures Line(doc, line) == None
  {
    NothingDeleted(line);
    NoColonNoToken(line);
  }

  /** A line end in a value breaks the file: the rest of the value is a line of its own. */
  lemma LineEndInValueFails(path: string, key: string, a: string, b: string)
    requires PlainKey(key) && PlainText(a) && PlainKey(b) && b != "-"
    ensures ParsedFile(path, Printed([LeafField(key, a + [NEWLINE] + b)])) == None
  {
    hide Line, LinesOf, ParseFrom;
    var first := LeafText(0, key, a);
    var doc := NewDoc(path);
    var text := Printed([LeafField(key, a + [NEWLINE] + b)]);
    assert text == FileText([first, b]) by { SplitValue(key, a, b); }
    FileLines([first, b]);
    LeafStep(doc, 0, [], key, a);
    var next := Line(doc, first).value;
    OneLine(doc, first, [b]);
    assert [first] + [b] == [first, b];
    assert Spaces(0) + b == b;
    TrimIndented(0, b);
    BareLineFails(next, b);
    Refused(next, b);
  }

  lemma Refused(doc: Doc, line: string)
    requires HasDepth(doc.root, doc.depth) && Line(doc, line) == None
    ensures ParseFrom(doc, [line]) == None
  {
  }

  lemma SplitValue(key: string, a: string, b: string)
    ensures Printed([LeafField(key, a + [NEWLINE] + b)]) == FileText([LeafText(0, key, a), b])
  {
    var whole, first := LeafText(0, key, a + [NEWLINE] + b), LeafText(0, key, a);
    assert Lines([LeafField(key, a + [NEWLINE] + b)], 0) == [whole];
    assert FileText([whole][1..]) == [] && FileText([b][1..]) == [];
    assert [first, b][1..] == [b];
    assert whole == first + [NEWLINE] + b;
  }
}
