/** Reading a generated DOT document back into its statements. The reader is
    the partner of the serialiser: whatever it accepts re-renders to the same
    text, and it recovers the body of every document whose names hold no
    double quote and no newline. Names with a double quote are inserted
    unescaped, so two different flows can give the same document. */
module DotText {
  import opened StatusFlow
  import StatusFlowProperties

  datatype Option<T> = None | Some(value: T)

  /** The first position of `c` in `s`, if any. */
  function IndexOf(s: string, c: char): (r: Option<nat>)
    ensures r.Some? ==> r.value < |s| && s[r.value] == c && c !in s[..r.value]
    ensures r.None? <==> c !in s
  {
    if s == [] then None
    else if s[0] == c then Some(0)
    else
      match IndexOf(s[1..], c)
      case None => None
      case Some(k) =>
        assert s[..k + 1] == [s[0]] + s[1..][..k];
        Some(k + 1)
  }

  /** A name the text format can carry: no double quote and no newline. */
  predicate PlainName(x: string)
  {
    '"' !in x && '\n' !in x
  }

  predicate PlainLine(l: Line)
  {
    match l
    case Node(x) => PlainName(x)
    case Edge(a, b) => PlainName(a) && PlainName(b)
  }

  const Open: string := "  \""
  const Close: string := "\";"
  const Arrow: string := "\" -> \""

  lemma NodeDeclShape(x: string)
    ensures NodeDecl(x) == Open + x + Close + "\n"
  {
    assert "\";\n" == Close + "\n";
  }

  lemma EdgeDeclShape(a: string, b: string)
    ensures EdgeDecl(a, b) == Open + (a + Arrow + b) + Close + "\n"
  {
    assert "\";\n" == Close + "\n";
    assert Open + a + Arrow + b == Open + (a + Arrow + b);
  }

  /** The inside of an edge statement, cut around its arrow. */
  lemma InnerEdge(m: string, k: nat)
    requires k + |Arrow| <= |m| && m[k..k + |Arrow|] == Arrow
    ensures EdgeDecl(m[..k], m[k + |Arrow|..]) == Open + m + Close + "\n"
  {
    var a, b := m[..k], m[k + |Arrow|..];
    Split3(m, k, k + |Arrow|);
    EdgeDeclShape(a, b);
  }

  /** Cutting `t` at two positions. */
  lemma Split3(t: string, i: nat, j: nat)
    requires i <= j <= |t|
    ensures t == t[..i] + t[i..j] + t[j..]
  {
  }

  /** Cutting `t` around the character at `k`. */
  lemma SplitAt(t: string, k: nat, c: char)
    requires k < |t| && t[k] == c
    ensures t == t[..k] + [c] + t[k + 1..]
  {
    Split3(t, k, k + 1);
  }

  /** The inside of a statement, between its opening quote and its closing
      quote: one name, or two names joined by an arrow. */
  function ParseInner(m: string): (r: Option<Line>)
    ensures r.Some? ==> RenderLine(r.value) == Open + m + Close + "\n"
  {
    match IndexOf(m, '"')
    case None =>
      NodeDeclShape(m);
      Some(Node(m))
    case Some(k) =>
      if k + |Arrow| <= |m| && m[k..k + |Arrow|] == Arrow && IndexOf(m[k + |Arrow|..], '"').None? then
        InnerEdge(m, k);
        Some(Edge(m[..k], m[k + |Arrow|..]))
      else None
  }

  /** One statement without its newline: two spaces, a quoted name and a
      semicolon, or two quoted names joined by an arrow. */
  function ParseLine(t: string): (r: Option<Line>)
    ensures r.Some? ==> RenderLine(r.value) == t + "\n"
  {
    if |t| < |Open| + |Close| || t[..|Open|] != Open || t[|t| - |Close|..] != Close then None
    else
      var m := t[|Open|..|t| - |Close|];
      Split3(t, |Open|, |t| - |Close|);
      ParseInner(m)
  }

  /** Newline-terminated statements, one after the other. */
  function ParseLines(t: string): (r: Option<seq<Line>>)
    ensures r.Some? ==> Render(r.value) == t
    decreases |t|
  {
    if t == [] then Some([])
    else
      match IndexOf(t, '\n')
      case None => None
      case Some(k) =>
        match ParseLine(t[..k])
        case None => None
        case Some(l) =>
          match ParseLines(t[k + 1..])
          case None => None
          case Some(ls) =>
            SplitAt(t, k, '\n');
            assert ([l] + ls)[1..] == ls;
            Some([l] + ls)
  }

  /** A whole document: the fixed header, statements, the closing brace. */
  function ParseDocument(doc: string): (r: Option<seq<Line>>)
    ensures r.Some? ==> Header + Render(r.value) + Footer == doc
  {
    if |doc| < |Header| + |Footer| || doc[..|Header|] != Header || doc[|doc| - |Footer|..] != Footer then None
    else
      var body := doc[|Header|..|doc| - |Footer|];
      match ParseLines(body)
      case None => None
      case Some(lines) =>
        Split3(doc, |Header|, |doc| - |Footer|);
        Some(lines)
  }

  // ---------------------------------------------------------------------
  // The reader recovers what the serialiser wrote

  /** The first `c` in `a + b` is the head of `b` when `a` holds none. */
  lemma {:induction false} IndexOfAfter(a: string, b: string, c: char)
    requires c !in a && b != [] && b[0] == c
    ensures IndexOf(a + b, c) == Some(|a|)
  {
    if a != [] {
      assert (a + b)[0] == a[0] && (a + b)[1..] == a[1..] + b;
      assert c !in a[1..] by {
        assert a == [a[0]] + a[1..];
      }
      IndexOfAfter(a[1..], b, c);
    }
  }

  /** The reader strips the opening and closing quotes it put around `m`. */
  lemma Unwrap(m: string)
    ensures ParseLine(Open + m + Close) == ParseInner(m)
  {
    var t := Open + m + Close;
    assert t[..|Open|] == Open && t[|t| - |Close|..] == Close;
    assert t[|Open|..|t| - |Close|] == m;
  }

  lemma NodeLineRead(x: string)
    requires PlainName(x)
    ensures ParseLine(Open + x + Close) == Some(Node(x))
  {
    Unwrap(x);
  }

  /** The inside of an edge statement is cut at its first quote, which is
      where the arrow starts. */
  lemma EdgeInnerRead(a: string, b: string)
    requires PlainName(a) && PlainName(b)
    ensures ParseInner(a + Arrow + b) == Some(Edge(a, b))
  {
    var m := a + Arrow + b;
    assert m == a + (Arrow + b);
    IndexOfAfter(a, Arrow + b, '"');
    assert m[|a|..|a| + |Arrow|] == Arrow;
    assert m[|a| + |Arrow|..] == b && m[..|a|] == a;
  }

  lemma EdgeLineRead(a: string, b: string)
    requires PlainName(a) && PlainName(b)
    ensures ParseLine(Open + (a + Arrow + b) + Close) == Some(Edge(a, b))
  {
    Unwrap(a + Arrow + b);
    EdgeInnerRead(a, b);
  }

  /** The text of a statement without its newline. */
  function LineText(l: Line): string
  {
    match l
    case Node(x) => Open + x + Close
    case Edge(a, b) => Open + (a + Arrow + b) + Close
  }

  /** Quoting a name that has no newline adds none. */
  lemma QuotedNoNewline(m: string)
    requires '\n' !in m
    ensures '\n' !in Open + m + Close
  {
    var t := Open + m + Close;
    assert forall i :: 0 <= i < |t| ==>
      t[i] == (if i < |Open| then Open[i] else if i < |Open| + |m| then m[i - |Open|] else Close[i - |Open| - |m|]);
  }

  lemma JoinedNoNewline(a: string, b: string)
    requires '\n' !in a && '\n' !in b
    ensures '\n' !in a + Arrow + b
  {
    var t := a + Arrow + b;
    assert forall i :: 0 <= i < |t| ==>
      t[i] == (if i < |a| then a[i] else if i < |a| + |Arrow| then Arrow[i - |a|] else b[i - |a| - |Arrow|]);
  }

  /** Every statement is its line text and one newline, and the line reader
      turns that text back into the statement. */
  lemma LineShape(l: Line)
    requires PlainLine(l)
    ensures RenderLine(l) == LineText(l) + "\n"
    ensures '\n' !in LineText(l)
    ensures ParseLine(LineText(l)) == Some(l)
  {
    match l
    case Node(x) =>
      NodeDeclShape(x);
      QuotedNoNewline(x);
      NodeLineRead(x);
    case Edge(a, b) =>
      EdgeDeclShape(a, b);
      JoinedNoNewline(a, b);
      QuotedNoNewline(a + Arrow + b);
      EdgeLineRead(a, b);
  }

  /** The first newline after a newline-free `u` is the one that follows it. */
  lemma ReadFirst(u: string, rest: string)
    requires '\n' !in u
    ensures var t := u + "\n" + rest;
      IndexOf(t, '\n') == Some(|u|) && t[..|u|] == u && t[|u| + 1..] == rest
  {
    var t := u + "\n" + rest;
    assert t == u + ("\n" + rest);
    IndexOfAfter(u, "\n" + rest, '\n');
  }

  /** Reading a newline-free first line, then the rest. */
  lemma ParseLinesStep(u: string, rest: string)
    requires '\n' !in u
    ensures ParseLines(u + "\n" + rest) ==
      match ParseLine(u)
      case None => None
      case Some(l) =>
        match ParseLines(rest)
        case None => None
        case Some(ls) => Some([l] + ls)
  {
    ReadFirst(u, rest);
  }

  lemma {:induction false} LinesRoundTrip(lines: seq<Line>)
    requires forall k :: 0 <= k < |lines| ==> PlainLine(lines[k])
    ensures ParseLines(Render(lines)) == Some(lines)
  {
    if lines != [] {
      var l := lines[0];
      LineShape(l);
      LinesRoundTrip(lines[1..]);
      ParseLinesStep(LineText(l), Render(lines[1..]));
      assert [l] + lines[1..] == lines;
    }
  }

  /** A line's names. */
  function LineNames(l: Line): set<string>
  {
    match l
    case Node(x) => {x}
    case Edge(a, b) => {a, b}
  }

  lemma {:induction false} SuccessorNames(from: string, nexts: seq<string>, seen: set<string>)
    ensures forall l :: l in SuccessorLines(from, nexts, seen) ==> LineNames(l) <= {from} + Elems(nexts)
  {
    if nexts != [] {
      SuccessorNames(from, nexts[1..], seen + {nexts[0]});
      assert Elems(nexts) == {nexts[0]} + Elems(nexts[1..]) by {
        assert nexts == [nexts[0]] + nexts[1..];
      }
    }
  }

  lemma {:induction false} BodyNames(ss: seq<Status>, seen: set<string>)
    ensures forall l :: l in BodyLines(ss, seen) ==> LineNames(l) <= Mentioned(ss)
  {
    if ss != [] {
      var s := ss[0];
      SuccessorNames(s.name, s.nextStatus, seen + {s.name});
      BodyNames(ss[1..], seen + RecordNames(s));
      assert RecordNames(s) <= Mentioned(ss) by {
        forall x | x in RecordNames(s)
          ensures x in Mentioned(ss)
        {
          assert x in RecordNames(ss[0]);
        }
      }
      assert Mentioned(ss[1..]) <= Mentioned(ss) by {
        forall x | x in Mentioned(ss[1..])
          ensures x in Mentioned(ss)
        {
          var k :| 0 <= k < |ss[1..]| && x in RecordNames(ss[1..][k]);
          assert ss[1..][k] == ss[k + 1];
        }
      }
    }
  }

  /** When no name holds a double quote or a newline, the reader gives back
      exactly the statements the serialiser wrote. */
  lemma DocumentRoundTrip(ss: seq<Status>)
    requires forall x :: x in Mentioned(ss) ==> PlainName(x)
    ensures ParseDocument(Document(ss)) == Some(Body(ss))
  {
    var body := Body(ss);
    BodyNames(ss, {});
    forall k | 0 <= k < |body|
      ensures PlainLine(body[k])
    {
      assert body[k] in body;
      assert LineNames(body[k]) <= Mentioned(ss);
    }
    LinesRoundTrip(body);
    var doc := Document(ss);
    assert doc[|Header|..|doc| - |Footer|] == Render(body);
  }

  /** Names go into the text unescaped: a name holding a quote, a semicolon
      and a newline yields the same document as two separate records, so the
      round trip above needs its restriction on names. */
  lemma QuotedNameForgesNodes()
    ensures Document([Status("A\";\n  \"B", [])]) == Document([Status("A", []), Status("B", [])])
    ensures Body([Status("A\";\n  \"B", [])]) != Body([Status("A", []), Status("B", [])])
  {
    ForgedBodies();
    assert Render([Node("A\";\n  \"B")]) == NodeDecl("A\";\n  \"B");
    assert Render([Node("A"), Node("B")]) == NodeDecl("A") + NodeDecl("B") by {
      assert [Node("A"), Node("B")][1..] == [Node("B")];
      assert [Node("B")][1..] == [];
    }
    ForgedText();
  }

  lemma ForgedBodies()
    ensures Body([Status("A\";\n  \"B", [])]) == [Node("A\";\n  \"B")]
    ensures Body([Status("A", []), Status("B", [])]) == [Node("A"), Node("B")]
  {
    var one := [Status("A\";\n  \"B", [])];
    var two := [Status("A", []), Status("B", [])];
    StatusFlowProperties.LeafRecord("A\";\n  \"B", {});
    StatusFlowProperties.LeafRecord("A", {});
    StatusFlowProperties.LeafRecord("B", {"A"});
    assert one[1..] == [] && two[1..][1..] == [];
    assert two[1..][0] == two[1];
    assert {} + {"A"} == {"A"};
  }

  lemma ForgedText()
    ensures NodeDecl("A\";\n  \"B") == NodeDecl("A") + NodeDecl("B")
  {
    assert NodeDecl("A\";\n  \"B") == "  \"A\";\n  \"B\";\n";
    assert NodeDecl("A") + NodeDecl("B") == "  \"A\";\n  \"B\";\n";
  }
}
