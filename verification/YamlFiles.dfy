/** Files as people write them: comments, blank lines, trailing spaces, and the mistakes that are refused. */
module YamlFiles {
  import opened Wrappers
  import opened StrUtil
  import opened Yaml
  import opened YamlRoundTrip

  // -- The lines of a printed document --

  datatype Shape = LeafShape(d: nat, key: string, data: string) | OpenShape(d: nat, key: string) | DashShape(d: nat)

  function ShapeText(sh: Shape): string {
    match sh
    case LeafShape(d, key, data) => LeafText(d, key, data)
    case OpenShape(d, key) => OpenText(d, key)
    case DashShape(d) => DashText(d)
  }

  predicate PlainShape(sh: Shape) {
    match sh
    case LeafShape(_, key, data) => PlainKey(key) && PlainText(data)
    case OpenShape(_, key) => PlainKey(key)
    case DashShape(_) => true
  }

  function Shapes(fs: seq<Field>, d: nat): seq<Shape>
    decreases fs, 0
  {
    if fs == [] then [] else FieldShapes(fs[0], d) + Shapes(fs[1..], d)
  }

  function FieldShapes(f: Field, d: nat): seq<Shape>
    decreases f, 1
  {
    match f
    case LeafField(k, s) => [LeafShape(d, k, s)]
    case ObjField(k, fs) => [OpenShape(d, k)] + Shapes(fs, d + 1)
    case ArrField(k, rs) => [OpenShape(d, k)] + ArrayShapes(rs, d + 1)
  }

  function ArrayShapes(rs: seq<seq<(string, string)>>, d: nat): seq<Shape> {
    if rs == [] then [] else [DashShape(d)] + RecordShapes(rs[0], d) + ArrayShapes(rs[1..], d)
  }

  function RecordShapes(r: seq<(string, string)>, d: nat): seq<Shape> {
    if r == [] then [] else [LeafShape(d, r[0].0, r[0].1)] + RecordShapes(r[1..], d)
  }

  function Texts(shapes: seq<Shape>): (r: seq<string>)
    ensures |r| == |shapes|
  {
    if shapes == [] then [] else [ShapeText(shapes[0])] + Texts(shapes[1..])
  }

  ghost predicate AllPlain(shapes: seq<Shape>) {
    forall i :: 0 <= i < |shapes| ==> PlainShape(shapes[i])
  }

  lemma {:induction false} TextsConcat(a: seq<Shape>, b: seq<Shape>)
    ensures Texts(a + b) == Texts(a) + Texts(b)
  {
    hide ShapeText;
    if a == [] {
      assert a + b == b;
    } else {
      assert (a + b)[1..] == a[1..] + b;
      TextsConcat(a[1..], b);
    }
  }

  lemma OneText(sh: Shape)
    ensures Texts([sh]) == [ShapeText(sh)]
  {
    assert [sh][1..] == [];
  }

  lemma {:induction false} RecordShaped(r: seq<(string, string)>, d: nat)
    requires PlainRecord(r)
    ensures Texts(RecordShapes(r, d)) == RecordLines(r, d) && AllPlain(RecordShapes(r, d))
  {
    hide LeafText;
    if r != [] {
      RecordShaped(r[1..], d);
      var head := [LeafShape(d, r[0].0, r[0].1)];
      OneText(head[0]);
      TextsConcat(head, RecordShapes(r[1..], d));
    }
  }

  lemma {:induction false} ArrayShaped(rs: seq<seq<(string, string)>>, d: nat)
    requires forall i :: 0 <= i < |rs| ==> PlainRecord(rs[i])
    ensures Texts(ArrayShapes(rs, d)) == ArrayLines(rs, d) && AllPlain(ArrayShapes(rs, d))
  {
    hide PlainRecord, Texts, LeafText, DashText;
    if rs == [] {
      NoTexts();
    } else {
      RecordShaped(rs[0], d);
      ArrayShaped(rs[1..], d);
      OneText(DashShape(d));
      TextsConcat([DashShape(d)], RecordShapes(rs[0], d));
      TextsConcat([DashShape(d)] + RecordShapes(rs[0], d), ArrayShapes(rs[1..], d));
    }
  }

  lemma NoTexts()
    ensures Texts([]) == []
  {
  }

  lemma {:induction false} FieldShaped(f: Field, d: nat)
    requires Printable(f)
    ensures Texts(FieldShapes(f, d)) == FieldLines(f, d) && AllPlain(FieldShapes(f, d))
    decreases f, 1
  {
    hide Texts, LeafText, OpenText;
    match f
    case LeafField(k, s) =>
      OneText(LeafShape(d, k, s));
    case ObjField(k, fs) =>
      FieldsShaped(fs, d + 1);
      OneText(OpenShape(d, k));
      TextsConcat([OpenShape(d, k)], Shapes(fs, d + 1));
    case ArrField(k, rs) =>
      ArrayShaped(rs, d + 1);
      OneText(OpenShape(d, k));
      TextsConcat([OpenShape(d, k)], ArrayShapes(rs, d + 1));
  }

  lemma {:induction false} FieldsShaped(fs: seq<Field>, d: nat)
    requires AllPrintable(fs)
    ensures Texts(Shapes(fs, d)) == Lines(fs, d) && AllPlain(Shapes(fs, d))
    decreases fs, 0
  {
    hide Texts, FieldShapes, FieldLines, Printable;
    if fs == [] {
      NoTexts();
    } else {
      FieldShaped(fs[0], d);
      FieldsShaped(fs[1..], d);
      TextsConcat(FieldShapes(fs[0], d), Shapes(fs[1..], d));
    }
  }

  // -- Comments, blank lines, trailing spaces --

  predicate IsComment(c: string) {
    (c == [] || c[0] == '#') && forall i :: 0 <= i < |c| ==> c[i] != NEWLINE
  }

  /** A line of its own that says nothing, or spaces and a comment behind the next printed line. */
  datatype Remark = Alone(comment: string) | Behind(spaces: nat, comment: string)

  /** Spaces may stand behind a leaf or a dash, not behind a key that opens a node. */
  predicate Fits(remarks: seq<Remark>, shapes: seq<Shape>)
    decreases |remarks|
  {
    remarks == [] ||
    match remarks[0]
    case Alone(c) => IsComment(c) && Fits(remarks[1..], shapes)
    case Behind(n, c) =>
      shapes != [] && IsComment(c) && (shapes[0].OpenShape? ==> n == 0) && Fits(remarks[1..], shapes[1..])
  }

  /** The document with its remarks. */
  function Remarked(remarks: seq<Remark>, shapes: seq<Shape>): seq<string>
    requires Fits(remarks, shapes)
    decreases |remarks|
  {
    if remarks == [] then Texts(shapes)
    else
      match remarks[0]
      case Alone(c) => [c] + Remarked(remarks[1..], shapes)
      case Behind(n, c) => [ShapeText(shapes[0]) + Spaces(n) + c] + Remarked(remarks[1..], shapes[1..])
  }

  lemma {:induction false} CommentDeleted(s: string, c: string)
    requires (forall i :: 0 <= i < |s| ==> s[i] != '#') && (c == [] || c[0] == '#')
    ensures DelAfter(s + c, '#') == s
  {
    if s == [] {
      assert s + c == c;
    } else {
      assert (s + c)[1..] == s[1..] + c;
      CommentDeleted(s[1..], c);
    }
  }

  lemma {:induction false} TrimPadded(s: string, n: nat)
    requires s == [] || s[|s| - 1] != ' '
    ensures TrimRight(s + Spaces(n)) == s
  {
    if n == 0 {
      assert s + Spaces(0) == s;
    } else {
      var t := s + Spaces(n);
      assert t[..|t| - 1] == s + Spaces(n - 1);
      TrimPadded(s, n - 1);
    }
  }

  lemma {:induction false} OnlySpaces(n: nat)
    ensures TrimLeft(Spaces(n)) == [] && Trim(Spaces(n)) == []
  {
    if n > 0 {
      assert Spaces(n)[1..] == Spaces(n - 1);
      OnlySpaces(n - 1);
    }
  }

  lemma TrimDataPadded(data: string, n: nat)
    requires PlainText(data)
    ensures Trim(" " + data + Spaces(n)) == data
  {
    if data == [] {
      assert " " + data + Spaces(n) == Spaces(n + 1);
      OnlySpaces(n + 1);
    } else {
      assert " " + data + Spaces(n) == Spaces(1) + (data + Spaces(n));
      LeadingSpaces(1, data + Spaces(n));
      TrimPadded(data, n);
    }
  }

  /** What a line says is what is before its comment. */
  lemma LineBeforeComment(doc: Doc, s: string, c: string)
    requires HasDepth(doc.root, doc.depth)
    requires (forall i :: 0 <= i < |s| ==> s[i] != '#') && (c == [] || c[0] == '#')
    ensures Line(doc, s + c) == Line(doc, s)
  {
    CommentDeleted(s, c);
    NothingDeleted(s);
  }

  lemma PlainHasNoHash(sh: Shape)
    requires PlainShape(sh)
    ensures forall i :: 0 <= i < |ShapeText(sh)| ==> ShapeText(sh)[i] != '#' && ShapeText(sh)[i] != NEWLINE
  {
  }

  lemma {:induction false} RemarkBehind(doc: Doc, sh: Shape, n: nat, c: string)
    requires HasDepth(doc.root, doc.depth) && PlainShape(sh) && IsComment(c) && (sh.OpenShape? ==> n == 0)
    ensures Line(doc, ShapeText(sh) + Spaces(n) + c) == Line(doc, ShapeText(sh))
  {
    hide Line;
    PlainHasNoHash(sh);
    LineBeforeComment(doc, ShapeText(sh) + Spaces(n), c);
    match sh
    case LeafShape(d, key, data) =>
      LeafRead(doc, d, key, data);
      var b := " " + data + Spaces(n);
      assert LeafText(d, key, data) + Spaces(n) == Spaces(2 * d) + key + ":" + b;
      LeafReadAt(doc, 2 * d, key, b);
      TrimDataPadded(data, n);
    case OpenShape(d, key) =>
      assert OpenText(d, key) + Spaces(0) == OpenText(d, key);
    case DashShape(d) =>
      DashPadded(doc, d, n);
  }

  lemma DashPadded(doc: Doc, d: nat, n: nat)
    requires HasDepth(doc.root, doc.depth)
    ensures Line(doc, DashText(d) + Spaces(n)) == Line(doc, DashText(d))
  {
    hide DashLine;
    DashRead(doc, d);
    var line := DashText(d) + Spaces(n);
    NothingDeleted(line);
    NoColonNoToken(line);
    assert line == Spaces(2 * d) + ("-" + Spaces(n));
    LeadingSpaces(2 * d, "-" + Spaces(n));
    TrimPadded("-", n);
  }

  lemma RemarkAlone(doc: Doc, c: string)
    requires HasDepth(doc.root, doc.depth) && IsComment(c)
    ensures Line(doc, c) == Some(doc)
  {
    CommentDeleted([], c);
    assert [] + c == c;
  }

  lemma {:induction false} RemarksIgnored(doc: Doc, remarks: seq<Remark>, shapes: seq<Shape>)
    requires HasDepth(doc.root, doc.depth) && AllPlain(shapes) && Fits(remarks, shapes)
    ensures ParseFrom(doc, Remarked(remarks, shapes)) == ParseFrom(doc, Texts(shapes))
    decreases |remarks|
  {
    hide Line, ShapeText, PlainShape;
    if remarks != [] {
      var all := Remarked(remarks, shapes);
      match remarks[0]
      case Alone(c) =>
        RemarkAlone(doc, c);
        RemarksIgnored(doc, remarks[1..], shapes);
        assert all[1..] == Remarked(remarks[1..], shapes);
      case Behind(n, c) =>
        RemarkBehind(doc, shapes[0], n, c);
        LineKeepsDepth(doc, ShapeText(shapes[0]));
        assert all[1..] == Remarked(remarks[1..], shapes[1..]);
        assert Texts(shapes)[1..] == Texts(shapes[1..]);
        var next := Line(doc, ShapeText(shapes[0]));
        if next.Some? {
          RemarksIgnored(next.value, remarks[1..], shapes[1..]);
        }
    }
  }

  lemma {:induction false} RemarkedOnLines(remarks: seq<Remark>, shapes: seq<Shape>)
    requires AllPlain(shapes) && Fits(remarks, shapes)
    ensures OneLineEach(Remarked(remarks, shapes))
    decreases |remarks|
  {
    hide ShapeText, PlainShape;
    if remarks == [] {
      TextsOnLines(shapes);
    } else {
      match remarks[0]
      case Alone(c) =>
        RemarkedOnLines(remarks[1..], shapes);
      case Behind(n, c) =>
        RemarkedOnLines(remarks[1..], shapes[1..]);
        PlainHasNoHash(shapes[0]);
    }
  }

  lemma {:induction false} TextsOnLines(shapes: seq<Shape>)
    requires AllPlain(shapes)
    ensures OneLineEach(Texts(shapes))
  {
    hide ShapeText, PlainShape;
    if shapes != [] {
      PlainHasNoHash(shapes[0]);
      TextsOnLines(shapes[1..]);
    }
  }

  /**
   The round trip with remarks: empty lines and comment lines anywhere, comments behind any line, and spaces
   behind leaves and dashes leave the tree as it is.
   */
  lemma ParseRemarked(path: string, fs: seq<Field>, remarks: seq<Remark>)
    requires AllPrintable(fs) && Fits(remarks, Shapes(fs, 0))
    ensures ParsedFile(path, FileText(Remarked(remarks, Shapes(fs, 0)))) == Some(Node(path, Some(Obj(ToNodes(fs)))))
  {
    hide LinesOf, FileText, ParseFrom, Shapes, Remarked, Fits, Lines, ToNodes;
    FieldsShaped(fs, 0);
    RemarkedOnLines(remarks, Shapes(fs, 0));
    FileLines(Remarked(remarks, Shapes(fs, 0)));
    RemarksIgnored(NewDoc(path), remarks, Shapes(fs, 0));
    FieldsOnLines(fs, 0);
    FileLines(Lines(fs, 0));
    ParsePrinted(path, fs);
  }

  /** Spaces behind a key that should open a node make it a leaf with nothing in it. */
  lemma SpaceBehindKey(doc: Doc, d: nat, key: string, n: nat, c: string)
    requires HasDepth(doc.root, doc.depth) && PlainKey(key) && n > 0 && IsComment(c)
    ensures Line(doc, OpenText(d, key) + Spaces(n) + c) == LeafLine(doc, key, "", 2 * d)
  {
    hide Line, LeafLine;
    LineBeforeComment(doc, OpenText(d, key) + Spaces(n), c);
    assert OpenText(d, key) + Spaces(n) == Spaces(2 * d) + key + ":" + Spaces(n);
    LeafReadAt(doc, 2 * d, key, Spaces(n));
    OnlySpaces(n);
  }

  /** A comment must not be indented: spaces before it, or alone, are refused. */
  lemma SpacesAloneFail(doc: Doc, n: nat, c: string)
    requires HasDepth(doc.root, doc.depth) && n > 0 && IsComment(c)
    ensures Line(doc, Spaces(n) + c) == None
  {
    hide Line;
    LineBeforeComment(doc, Spaces(n), c);
    OnlySpaces(n);
    BareLineFails(doc, Spaces(n));
  }

  // -- What is refused --

  /** A key goes two deeper than the last line or not at all, and back by whole levels that exist. */
  lemma WrongIndentFails(doc: Doc, n: nat, key: string)
    requires HasDepth(doc.root, doc.depth) && PlainKey(key)
    requires (n > doc.last && n != doc.last + 2)
          || (n < doc.last && ((doc.last - n) % 2 != 0 || doc.last - n > 2 * doc.depth))
    ensures Line(doc, Spaces(n) + key + ":") == None
  {
    hide Line;
    OpenReadAt(doc, n, key);
  }

  /** A dash in an object is refused. */
  lemma DashInObjectFails(doc: Doc, d: nat, ns: seq<Node>)
    requires HasDepth(doc.root, doc.depth) && ValueAt(doc.root, doc.depth) == Some(Obj(ns))
    ensures Line(doc, DashText(d)) == None
  {
    hide Line;
    DashRead(doc, d);
  }

  lemma {:induction false} ArrayLinesSplit(a: seq<seq<(string, string)>>, b: seq<seq<(string, string)>>, d: nat)
    ensures ArrayLines(a + b, d) == ArrayLines(a, d) + ArrayLines(b, d)
  {
    hide RecordLines, DashText;
    if a == [] {
      assert a + b == b;
    } else {
      assert (a + b)[1..] == a[1..] + b;
      ArrayLinesSplit(a[1..], b, d);
    }
  }

  /** One more record, of any length, behind equally long ones. */
  lemma {:induction false} NextRecord(
      doc: Doc, d: nat, first: nat, done: seq<seq<(string, string)>>, r: seq<(string, string)>)
    requires first > 0 && done != [] && (forall i :: 0 <= i < |done| ==> |done[i]| == first)
    requires Reading(doc, d, ArrayValue(done)) && PlainRecord(r)
    ensures var x := OpenArray(RecordValues(done), LeafNodes(r), first);
            var next := Doc(SetAt(doc.root, d, x), d, 2 * d);
            ParseFrom(doc, [DashText(d)] + RecordLines(r, d)) == Some(next) && Reading(next, d, x)
  {
    hide Line, LeafText, DashText, PlainRecord, SetAt, RecordLines, LeafNodes;
    var vs := RecordValues(done);
    DashStep(doc, d, first, done);
    var w := OpenArray(vs, [], first);
    var next := Doc(SetAt(doc.root, d, w), d, 2 * d);
    OneLine(doc, DashText(d), RecordLines(r, d));
    RecordRead(next, d, vs, [], first, r);
    assert [] + LeafNodes(r) == LeafNodes(r);
    var x := OpenArray(vs, LeafNodes(r), first);
    SetTwice(doc.root, d, w, x);
    SetReads(doc.root, d, x);
  }

  /** A dash behind a record that is not as long as the first one is refused. */
  lemma DashAfterOddRecord(doc: Doc, d: nat, done: seq<Value>, ns: seq<Node>, first: nat, rest: seq<string>)
    requires Reading(doc, d, OpenArray(done, ns, first)) && |ns| != first > 0
    ensures ParseFrom(doc, [DashText(d)] + rest) == None
  {
    DashRead(doc, d);
    hide Line, DashText;
    assert ([DashText(d)] + rest)[0] == DashText(d);
  }

  ghost predicate EvenButLast(rs: seq<seq<(string, string)>>)
    requires rs != []
  {
    forall i :: 0 <= i < |rs| - 1 ==> |rs[i]| == |rs[0]|
  }

  /** A list of records is read exactly when all but the last have the length of the first. */
  lemma ArrayReadIff(doc: Doc, d: nat, rs: seq<seq<(string, string)>>)
    requires Opened(doc, d) && rs != [] && forall i :: 0 <= i < |rs| ==> rs[i] != [] && PlainRecord(rs[i])
    ensures HasDepth(doc.root, doc.depth)
    ensures ParseFrom(doc, ArrayLines(rs, d)).Some? <==> EvenButLast(rs)
  {
    hide ParseFrom, Line, SetAt, ArrayLines, RecordLines, DashText, PlainRecord, ArrayValue;
    var first := |rs[0]|;
    if |rs| == 1 {
      ArrayRead(doc, d, first, [], rs);
    } else {
      var j := 1;
      while j < |rs| - 1 && |rs[j]| == first
        invariant 1 <= j < |rs| && forall i :: 0 <= i < j ==> |rs[i]| == first
      {
        j := j + 1;
      }
      EvenThen(doc, d, rs, j);
    }
  }

  lemma {:induction false} EvenThen(doc: Doc, d: nat, rs: seq<seq<(string, string)>>, j: nat)
    requires Opened(doc, d) && 1 <= j < |rs| && forall i :: 0 <= i < |rs| ==> rs[i] != [] && PlainRecord(rs[i])
    requires forall i :: 0 <= i < j ==> |rs[i]| == |rs[0]|
    requires j == |rs| - 1 || |rs[j]| != |rs[0]|
    ensures HasDepth(doc.root, doc.depth)
    ensures ParseFrom(doc, ArrayLines(rs, d)).Some? <==> j == |rs| - 1
  {
    hide ParseFrom, Line, SetAt, ArrayLines, RecordLines, DashText, PlainRecord, ArrayValue, LeafNodes, OpenArray;
    var first, done, r, rest := |rs[0]|, rs[..j], rs[j], rs[j + 1..];
    ArrayRead(doc, d, first, [], done);
    assert [] + done == done;
    SetReads(doc.root, d, ArrayValue(done));
    var mid := Doc(SetAt(doc.root, d, ArrayValue(done)), d, 2 * d);
    MidReading(mid, d, done);
    NextRecord(mid, d, first, done, r);
    var x := OpenArray(RecordValues(done), LeafNodes(r), first);
    var next := Doc(SetAt(mid.root, d, x), d, 2 * d);
    ArrayLinesSplit(done, [r] + rest, d);
    assert rs == done + ([r] + rest);
    ArrayLinesCons(r, rest, d);
    ParseConcat(doc, ArrayLines(done, d), ArrayLines([r] + rest, d));
    ParseConcat(mid, [DashText(d)] + RecordLines(r, d), ArrayLines(rest, d));
    if rest == [] {
      NoArrayLines(d);
      NoLines(next);
    } else {
      ArrayLinesCons(rest[0], rest[1..], d);
      assert rest == [rest[0]] + rest[1..];
      var after := RecordLines(rest[0], d) + ArrayLines(rest[1..], d);
      assert ArrayLines(rest, d) == [DashText(d)] + after;
      NodesLength(r);
      DashAfterOddRecord(next, d, RecordValues(done), LeafNodes(r), first, after);
    }
  }

  lemma MidReading(doc: Doc, d: nat, done: seq<seq<(string, string)>>)
    requires done != [] && HasDepth(doc.root, d) && doc.depth == d && doc.last == 2 * d
    requires ValueAt(doc.root, d) == Some(ArrayValue(done))
    ensures Reading(doc, d, ArrayValue(done))
  {
  }

  lemma NodesLength(r: seq<(string, string)>)
    ensures |LeafNodes(r)| == |r|
  {
  }

  lemma NoArrayLines(d: nat)
    ensures ArrayLines([], d) == []
  {
  }

  lemma ArrayLinesCons(r: seq<(string, string)>, rest: seq<seq<(string, string)>>, d: nat)
    ensures ArrayLines([r] + rest, d) == [DashText(d)] + RecordLines(r, d) + ArrayLines(rest, d)
    ensures ArrayLines([r] + rest, d) == [DashText(d)] + (RecordLines(r, d) + ArrayLines(rest, d))
  {
    assert ([r] + rest)[1..] == rest;
  }
}
