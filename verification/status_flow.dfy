/** The status-flow graph builder: `Status` records and the serialiser that
    turns an ordered list of them into a Graphviz DOT text.

    The body of the graph is described twice. Abstractly, the specification
    functions below give it as a sequence of `Line`s (a node declaration or an
    edge), walking the records front to back and threading the set `seen` of
    names declared so far, as the Go `GenerateDOT` threads its `visited` map.
    Concretely, the method `GenerateDOT` appends text to a string and updates
    a set, loop by loop, as the Go `GenerateDOT` does; its loop invariant says
    that the text built so far is the document for the records processed so
    far, and its postcondition ties the whole text to the specification. */
module StatusFlow {

  /** One state of the flow: its name and the names it may move to next. */
  datatype Status = Status(name: string, nextStatus: seq<string>)

  /** One statement of the graph body. */
  datatype Line = Node(name: string) | Edge(from: string, to: string)

  const GraphOpen: string := "digraph G {\n"
  const RankDir: string := "rankdir=LR;\n"
  const NodeStyle: string := "node [shape=box, style=rounded, color=blue, fontname=Helvetica];\n"
  /** The three fixed lines every document starts with. */
  const Header: string := GraphOpen + RankDir + NodeStyle
  /** The line every document ends with. */
  const Footer: string := "}\n"

  function Elems(s: seq<string>): set<string>
  {
    set x | x in s
  }

  /** The text that declares node `name`: the name between double quotes,
      verbatim, with no escaping. */
  function NodeDecl(name: string): string
  {
    "  \"" + name + "\";\n"
  }

  /** The text of an edge from `a` to `b`, the names again unescaped. */
  function EdgeDecl(a: string, b: string): string
  {
    "  \"" + a + "\" -> \"" + b + "\";\n"
  }

  /** The text of one statement. */
  function RenderLine(l: Line): (r: string)
    ensures 6 <= |r| && r[..3] == "  \"" && r[|r| - 3..] == "\";\n"
  {
    match l
    case Node(n) => NodeDecl(n)
    case Edge(a, b) => EdgeDecl(a, b)
  }

  /** The text of a sequence of statements, one after the other. */
  function Render(lines: seq<Line>): string
  {
    if lines == [] then "" else RenderLine(lines[0]) + Render(lines[1..])
  }

  /** A declaration of `name`, unless `seen` says it has been declared. */
  function NodeIfNew(name: string, seen: set<string>): (r: seq<Line>)
    ensures r == [] || r == [Node(name)]
    ensures Node(name) in r <==> name !in seen
  {
    if name in seen then [] else [Node(name)]
  }

  /** What the inner loop emits for the successors `nexts` of record `from`
      when `seen` holds the names declared before it: for each successor, its
      declaration if it is new, then the edge to it. */
  function SuccessorLines(from: string, nexts: seq<string>, seen: set<string>): seq<Line>
  {
    if nexts == [] then []
    else
      NodeIfNew(nexts[0], seen) + [Edge(from, nexts[0])]
      + SuccessorLines(from, nexts[1..], seen + {nexts[0]})
  }

  /** The names a record mentions: its own and its successors'. */
  function RecordNames(s: Status): set<string>
  {
    {s.name} + Elems(s.nextStatus)
  }

  /** What one pass of the outer loop emits for record `s`: its own name is
      considered first, then its successors. */
  function RecordLines(s: Status, seen: set<string>): (r: seq<Line>)
    ensures s.name !in seen ==> r != [] && r[0] == Node(s.name)
  {
    NodeIfNew(s.name, seen) + SuccessorLines(s.name, s.nextStatus, seen + {s.name})
  }

  /** The statements emitted for the records `ss` when `seen` holds the names
      declared before them. */
  function BodyLines(ss: seq<Status>, seen: set<string>): (r: seq<Line>)
    ensures ss != [] && ss[0].name !in seen ==> r != [] && r[0] == Node(ss[0].name)
  {
    if ss == [] then []
    else RecordLines(ss[0], seen) + BodyLines(ss[1..], seen + RecordNames(ss[0]))
  }

  /** Every name the records mention, as a record's name or as a successor. */
  function Mentioned(ss: seq<Status>): set<string>
  {
    set k, x | 0 <= k < |ss| && x in RecordNames(ss[k]) :: x
  }

  /** The graph body for the records `ss`, starting from no declared names. */
  function Body(ss: seq<Status>): (r: seq<Line>)
    ensures ss != [] ==> r != [] && r[0] == Node(ss[0].name)
  {
    BodyLines(ss, {})
  }

  /** The whole DOT document for the records `ss`. */
  function Document(ss: seq<Status>): (r: string)
    ensures |Header| + |Footer| <= |r|
    ensures r[..|Header|] == GraphOpen + RankDir + NodeStyle
    ensures r[..|GraphOpen|] == "digraph G {\n"
    ensures r[|r| - |Footer|..] == "}\n"
  {
    Header + Render(Body(ss)) + Footer
  }

  /** A node declaration: two spaces, a double quote, the name verbatim, a
      double quote, a semicolon and a newline. */
  lemma NodeDeclLayout(name: string)
    ensures |NodeDecl(name)| == |name| + 6
    ensures NodeDecl(name)[..3] == "  \"" && NodeDecl(name)[3..|name| + 3] == name
    ensures NodeDecl(name)[|name| + 3..] == "\";\n"
  {
  }

  /** An edge: two spaces, the first name quoted, an arrow, the second name
      quoted, a semicolon and a newline, both names verbatim. */
  lemma EdgeDeclLayout(a: string, b: string)
    ensures |EdgeDecl(a, b)| == |a| + |b| + 12
    ensures EdgeDecl(a, b)[..3] == "  \"" && EdgeDecl(a, b)[3..|a| + 3] == a
    ensures EdgeDecl(a, b)[|a| + 3..|a| + 9] == "\" -> \"" && EdgeDecl(a, b)[|a| + 9..|a| + |b| + 9] == b
    ensures EdgeDecl(a, b)[|a| + |b| + 9..] == "\";\n"
  {
  }

  /** Rendered statements take at least six characters each, and a non-empty
      rendering ends with a newline. */
  lemma {:induction false} RenderLines(lines: seq<Line>)
    ensures 6 * |lines| <= |Render(lines)|
    ensures lines != [] ==> Render(lines)[|Render(lines)| - 1] == '\n'
  {
    if lines != [] {
      var t, rest := RenderLine(lines[0]), Render(lines[1..]);
      RenderLines(lines[1..]);
      assert t[|t| - 1] == "\";\n"[2];
      if lines[1..] == [] {
        assert t + rest == t;
      } else {
        assert (t + rest)[|t + rest| - 1] == rest[|rest| - 1];
      }
    }
  }

  /** The inner loop emits one edge per successor and at most one declaration
      per successor; it ends with the edge to the last successor; and every
      declaration it emits names a successor that `seen` does not hold. */
  lemma {:induction false} SuccessorLinesShape(from: string, nexts: seq<string>, seen: set<string>)
    ensures |nexts| <= |SuccessorLines(from, nexts, seen)| <= 2 * |nexts|
    ensures nexts != [] ==>
      SuccessorLines(from, nexts, seen)[|SuccessorLines(from, nexts, seen)| - 1] == Edge(from, nexts[|nexts| - 1])
    ensures forall k | 0 <= k < |SuccessorLines(from, nexts, seen)| ::
      SuccessorLines(from, nexts, seen)[k].Node? ==>
        SuccessorLines(from, nexts, seen)[k].name in nexts && SuccessorLines(from, nexts, seen)[k].name !in seen
  {
    if nexts != [] {
      var x := nexts[0];
      var head := NodeIfNew(x, seen) + [Edge(from, x)];
      var tail := SuccessorLines(from, nexts[1..], seen + {x});
      var r := SuccessorLines(from, nexts, seen);
      SuccessorLinesShape(from, nexts[1..], seen + {x});
      assert r == head + tail;
      forall k | 0 <= k < |r| && r[k].Node?
        ensures r[k].name in nexts && r[k].name !in seen
      {
        if k < |head| {
          assert r[k] == head[k];
        } else {
          assert r[k] == tail[k - |head|];
        }
      }
      if tail == [] {
        assert |nexts| == 1;
      } else {
        assert r[|r| - 1] == tail[|tail| - 1];
        assert nexts[1..][|nexts[1..]| - 1] == nexts[|nexts| - 1];
      }
    }
  }

  /** Every record's own name and successors are among the mentioned names,
      and there are none exactly when there are no records. */
  lemma MentionedRecords(ss: seq<Status>)
    ensures forall k | 0 <= k < |ss| :: RecordNames(ss[k]) <= Mentioned(ss)
    ensures Mentioned(ss) == {} <==> ss == []
  {
    forall k | 0 <= k < |ss|
      ensures RecordNames(ss[k]) <= Mentioned(ss)
    {
      forall x | x in RecordNames(ss[k])
        ensures x in Mentioned(ss)
      {
      }
    }
    if ss != [] {
      assert ss[0].name in RecordNames(ss[0]);
    }
  }

  /** Rendering distributes over concatenation. */
  lemma {:induction false} RenderAppend(a: seq<Line>, b: seq<Line>)
    ensures Render(a + b) == Render(a) + Render(b)
  {
    if a == [] {
      assert a + b == b;
    } else {
      assert (a + b)[1..] == a[1..] + b;
      RenderAppend(a[1..], b);
    }
  }

  lemma AppendAssoc(a: string, b: string, c: string)
    ensures a + b + c == a + (b + c)
  {
  }

  lemma AppendAssoc4(a: string, b: string, c: string, d: string)
    ensures a + b + c + d == a + (b + (c + d))
  {
  }

  /** A single statement renders as its own text. */
  lemma RenderOne(l: Line)
    ensures Render([l]) == RenderLine(l)
  {
    assert [l][1..] == [];
    assert RenderLine(l) + "" == RenderLine(l);
  }

  /** The names among the first `j + 1` successors. */
  lemma ElemsPrefix(xs: seq<string>, j: nat)
    requires j < |xs|
    ensures Elems(xs[..j + 1]) == Elems(xs[..j]) + {xs[j]}
  {
    assert xs[..j + 1] == xs[..j] + [xs[j]];
  }

  /** What the inner loop emits for one more successor `x`: the text for
      `xs`, then the declaration of `x` if neither `seen` nor `xs` holds it,
      then the edge to it. */
  lemma {:induction false} SuccessorSnoc(from: string, xs: seq<string>, x: string, seen: set<string>)
    ensures SuccessorLines(from, xs + [x], seen)
         == SuccessorLines(from, xs, seen) + (NodeIfNew(x, seen + Elems(xs)) + [Edge(from, x)])
    decreases xs
  {
    var last := NodeIfNew(x, seen + Elems(xs)) + [Edge(from, x)];
    if xs == [] {
      assert xs + [x] == [x] && [x][1..] == [];
      assert seen + Elems(xs) == seen;
    } else {
      var y := xs[0];
      assert (xs + [x])[0] == y && (xs + [x])[1..] == xs[1..] + [x];
      assert seen + {y} + Elems(xs[1..]) == seen + Elems(xs) by {
        assert xs == [y] + xs[1..];
      }
      calc {
        SuccessorLines(from, xs + [x], seen);
        NodeIfNew(y, seen) + [Edge(from, y)] + SuccessorLines(from, xs[1..] + [x], seen + {y});
        { SuccessorSnoc(from, xs[1..], x, seen + {y}); }
        NodeIfNew(y, seen) + [Edge(from, y)] + (SuccessorLines(from, xs[1..], seen + {y}) + last);
        SuccessorLines(from, xs, seen) + last;
      }
    }
  }

  /** One step of the inner loop: the text for successors `nexts[..j + 1]`
      is the text for `nexts[..j]`, then the declaration of `nexts[j]` (only
      if it is not yet in the grown seen set), then the edge to it. */
  lemma SuccessorStep(prefix: string, from: string, nexts: seq<string>, j: nat, seen: set<string>)
    requires j < |nexts|
    ensures nexts[j] !in seen + Elems(nexts[..j]) ==>
      prefix + Render(SuccessorLines(from, nexts[..j], seen)) + NodeDecl(nexts[j]) + EdgeDecl(from, nexts[j])
      == prefix + Render(SuccessorLines(from, nexts[..j + 1], seen))
    ensures nexts[j] in seen + Elems(nexts[..j]) ==>
      prefix + Render(SuccessorLines(from, nexts[..j], seen)) + EdgeDecl(from, nexts[j])
      == prefix + Render(SuccessorLines(from, nexts[..j + 1], seen))
  {
    var x, seen1 := nexts[j], seen + Elems(nexts[..j]);
    var done := Render(SuccessorLines(from, nexts[..j], seen));
    var decl := NodeIfNew(x, seen1);
    assert Render(SuccessorLines(from, nexts[..j + 1], seen)) == done + Render(decl + [Edge(from, x)]) by {
      assert nexts[..j + 1] == nexts[..j] + [x];
      SuccessorSnoc(from, nexts[..j], x, seen);
      RenderAppend(SuccessorLines(from, nexts[..j], seen), decl + [Edge(from, x)]);
    }
    RenderAppend(decl, [Edge(from, x)]);
    RenderOne(Edge(from, x));
    if x !in seen1 {
      calc {
        prefix + Render(SuccessorLines(from, nexts[..j + 1], seen));
        { RenderOne(Node(x)); }
        prefix + (done + (NodeDecl(x) + EdgeDecl(from, x)));
        { AppendAssoc4(prefix, done, NodeDecl(x), EdgeDecl(from, x)); }
        prefix + done + NodeDecl(x) + EdgeDecl(from, x);
      }
    } else {
      calc {
        prefix + Render(SuccessorLines(from, nexts[..j + 1], seen));
        { assert decl + [Edge(from, x)] == [Edge(from, x)]; }
        prefix + (done + EdgeDecl(from, x));
        { AppendAssoc(prefix, done, EdgeDecl(from, x)); }
        prefix + done + EdgeDecl(from, x);
      }
    }
  }

  /** The names mentioned by a non-empty list: the first record's, then the
      rest's. */
  lemma MentionedCons(ss: seq<Status>)
    requires ss != []
    ensures Mentioned(ss) == RecordNames(ss[0]) + Mentioned(ss[1..])
  {
    forall x | x in Mentioned(ss)
      ensures x in RecordNames(ss[0]) + Mentioned(ss[1..])
    {
      var k :| 0 <= k < |ss| && x in RecordNames(ss[k]);
      if k > 0 {
        assert ss[1..][k - 1] == ss[k];
      }
    }
    forall x | x in RecordNames(ss[0]) + Mentioned(ss[1..])
      ensures x in Mentioned(ss)
    {
      if x !in RecordNames(ss[0]) {
        var k :| 0 <= k < |ss[1..]| && x in RecordNames(ss[1..][k]);
        assert ss[k + 1] == ss[1..][k];
      }
    }
  }

  /** Splitting the records after `i` of them: the body is the body of the
      first `i` records, followed by what the rest emit when exactly the names
      the first `i` mention have been seen, which is the value the loop's
      `visited` set holds at that point. */
  lemma {:induction false} BodySplit(ss: seq<Status>, i: nat, seen: set<string>)
    requires i <= |ss|
    ensures BodyLines(ss, seen) == BodyLines(ss[..i], seen) + BodyLines(ss[i..], seen + Mentioned(ss[..i]))
    decreases i
  {
    if i == 0 {
      assert ss[..0] == [] && ss[0..] == ss;
      assert Mentioned(ss[..0]) == {};
      assert seen + {} == seen;
    } else {
      var s := ss[0];
      var pre, post := ss[..i], ss[i..];
      var seen1 := seen + RecordNames(s);
      assert ss[1..][..i - 1] == pre[1..] && ss[1..][i - 1..] == post;
      assert pre[0] == s;
      assert Mentioned(pre) == RecordNames(s) + Mentioned(pre[1..]) by {
        MentionedCons(pre);
      }
      calc {
        BodyLines(ss, seen);
        RecordLines(s, seen) + BodyLines(ss[1..], seen1);
        { BodySplit(ss[1..], i - 1, seen1); }
        RecordLines(s, seen) + (BodyLines(pre[1..], seen1) + BodyLines(post, seen1 + Mentioned(pre[1..])));
        { assert seen1 + Mentioned(pre[1..]) == seen + Mentioned(pre); }
        (RecordLines(s, seen) + BodyLines(pre[1..], seen1)) + BodyLines(post, seen + Mentioned(pre));
        BodyLines(pre, seen) + BodyLines(post, seen + Mentioned(pre));
      }
    }
  }

  /** The body of the first `i + 1` records is that of the first `i`, then
      what record `i` emits when the names the first `i` mention are seen. */
  lemma BodySnoc(ss: seq<Status>, i: nat)
    requires i < |ss|
    ensures Body(ss[..i + 1]) == Body(ss[..i]) + RecordLines(ss[i], Mentioned(ss[..i]))
  {
    var pre, s, seen := ss[..i], ss[i], Mentioned(ss[..i]);
    var pre1 := ss[..i + 1];
    BodySplit(pre1, i, {});
    assert pre1[..i] == pre && pre1[i..] == [s];
    assert {} + Mentioned(pre) == seen;
    assert BodyLines([s], seen) == RecordLines(s, seen) + [] by {
      assert [s][1..] == [];
    }
  }

  /** One step of the outer loop: the text for the first `i + 1` records is
      the text for the first `i`, then record `i`'s own declaration (only if
      its name is not among the names mentioned so far), then its successors. */
  lemma RecordStep(prefix: string, ss: seq<Status>, i: nat)
    requires i < |ss|
    ensures ss[i].name !in Mentioned(ss[..i]) ==>
      prefix + Render(Body(ss[..i])) + NodeDecl(ss[i].name)
        + Render(SuccessorLines(ss[i].name, ss[i].nextStatus, Mentioned(ss[..i]) + {ss[i].name}))
      == prefix + Render(Body(ss[..i + 1]))
    ensures ss[i].name in Mentioned(ss[..i]) ==>
      prefix + Render(Body(ss[..i]))
        + Render(SuccessorLines(ss[i].name, ss[i].nextStatus, Mentioned(ss[..i]) + {ss[i].name}))
      == prefix + Render(Body(ss[..i + 1]))
  {
    var s, seen := ss[i], Mentioned(ss[..i]);
    var done := Render(Body(ss[..i]));
    var succ := SuccessorLines(s.name, s.nextStatus, seen + {s.name});
    assert Render(Body(ss[..i + 1])) == done + Render(NodeIfNew(s.name, seen) + succ) by {
      BodySnoc(ss, i);
      RenderAppend(Body(ss[..i]), RecordLines(s, seen));
    }
    RenderAppend(NodeIfNew(s.name, seen), succ);
    if s.name !in seen {
      calc {
        prefix + Render(Body(ss[..i + 1]));
        { RenderOne(Node(s.name)); }
        prefix + (done + (NodeDecl(s.name) + Render(succ)));
        { AppendAssoc4(prefix, done, NodeDecl(s.name), Render(succ)); }
        prefix + done + NodeDecl(s.name) + Render(succ);
      }
    } else {
      calc {
        prefix + Render(Body(ss[..i + 1]));
        { assert NodeIfNew(s.name, seen) + succ == succ; }
        prefix + (done + Render(succ));
        { AppendAssoc(prefix, done, Render(succ)); }
        prefix + done + Render(succ);
      }
    }
  }

  /** The names mentioned by one more record. */
  lemma MentionedSnoc(ss: seq<Status>, i: nat)
    requires i < |ss|
    ensures Mentioned(ss[..i + 1]) == Mentioned(ss[..i]) + RecordNames(ss[i])
  {
    var pre, pre1 := ss[..i], ss[..i + 1];
    forall x | x in Mentioned(pre1)
      ensures x in Mentioned(pre) + RecordNames(ss[i])
    {
      var k :| 0 <= k < |pre1| && x in RecordNames(pre1[k]);
      if k < i {
        assert pre1[k] == pre[k];
      }
    }
    forall x | x in Mentioned(pre) + RecordNames(ss[i])
      ensures x in Mentioned(pre1)
    {
      if x in RecordNames(ss[i]) {
        assert pre1[i] == ss[i];
      } else {
        var k :| 0 <= k < |pre| && x in RecordNames(pre[k]);
        assert pre1[k] == pre[k];
      }
    }
  }

  /** The inner loop of the serialiser, over the successors `nexts` of
      record `from`: each successor not yet in `visited` is declared and added
      to it, then the edge to it is appended. Returns the grown set and text. */
  method EmitSuccessors(from: string, nexts: seq<string>, visited0: set<string>, dot0: string)
    returns (visited: set<string>, dot: string)
    ensures visited == visited0 + Elems(nexts)
    ensures dot == dot0 + Render(SuccessorLines(from, nexts, visited0))
  {
    visited, dot := visited0, dot0;
    assert dot == dot0 + Render(SuccessorLines(from, nexts[..0], visited0)) by {
      assert nexts[..0] == [];
      assert dot0 + "" == dot0;
    }
    for j := 0 to |nexts|
      invariant visited == visited0 + Elems(nexts[..j])
      invariant dot == dot0 + Render(SuccessorLines(from, nexts[..j], visited0))
    {
      var next := nexts[j];
      ElemsPrefix(nexts, j);
      SuccessorStep(dot0, from, nexts, j, visited0);
      if next !in visited {
        dot := dot + NodeDecl(next);
        visited := visited + {next};
      } else {
        assert visited + {next} == visited;
      }
      dot := dot + EdgeDecl(from, next);
    }
    assert nexts[..|nexts|] == nexts;
  }

  /** The serialiser: a fixed header; then for every record its own name and
      its successors, each declared once, the first time it is seen, and one
      edge per successor; then the closing brace. The map of visited names is
      a set. */
  method GenerateDOT(statuses: seq<Status>) returns (dot: string)
    ensures dot == Document(statuses)
  {
    dot := GraphOpen;
    dot := dot + RankDir;
    dot := dot + NodeStyle;
    var visited: set<string> := {};
    assert dot == Header + Render(Body(statuses[..0])) by {
      assert statuses[..0] == [];
      assert Header + "" == Header;
    }
    for i := 0 to |statuses|
      invariant visited == Mentioned(statuses[..i])
      invariant dot == Header + Render(Body(statuses[..i]))
    {
      var status := statuses[i];
      ghost var seen := visited;
      if status.name !in visited {
        dot := dot + NodeDecl(status.name);
        visited := visited + {status.name};
      } else {
        assert visited + {status.name} == visited;
      }
      visited, dot := EmitSuccessors(status.name, status.nextStatus, visited, dot);
      assert visited == Mentioned(statuses[..i + 1]) by {
        MentionedSnoc(statuses, i);
      }
      assert dot == Header + Render(Body(statuses[..i + 1])) by {
        RecordStep(Header, statuses, i);
      }
    }
    assert statuses[..|statuses|] == statuses;
    dot := dot + Footer;
  }
}
