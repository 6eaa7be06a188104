/** What the serialiser promises about the graph body it emits, stated against
    reference definitions that do not follow the loop: the sequence of names
    in the order they are encountered, that sequence without repeats, and the
    list of (record, successor) pairs. */
module StatusFlowProperties {
  import opened StatusFlow

  /** Every name in the order the serialiser considers them: each record's own
      name, then its successors from left to right, record after record. */
  function Encounters(ss: seq<Status>): seq<string>
  {
    if ss == [] then [] else [ss[0].name] + ss[0].nextStatus + Encounters(ss[1..])
  }

  /** The names of `xs` that are not in `seen`, each kept at its first
      occurrence only, in order. */
  function NewNames(xs: seq<string>, seen: set<string>): seq<string>
  {
    if xs == [] then []
    else (if xs[0] in seen then [] else [xs[0]]) + NewNames(xs[1..], seen + {xs[0]})
  }

  /** `xs` with every repeat dropped. */
  function Dedup(xs: seq<string>): seq<string>
  {
    NewNames(xs, {})
  }

  predicate Distinct(xs: seq<string>)
  {
    forall i, j :: 0 <= i < j < |xs| ==> xs[i] != xs[j]
  }

  /** The position of the first occurrence of `x` in `xs`, or `|xs|` when
      there is none. */
  function FirstIndex(xs: seq<string>, x: string): (k: nat)
    ensures k <= |xs| && x !in xs[..k]
    ensures k < |xs| ==> xs[k] == x
  {
    if xs == [] then 0
    else if xs[0] == x then 0
    else
      var k := FirstIndex(xs[1..], x);
      assert xs[..k + 1] == [xs[0]] + xs[1..][..k];
      assert xs == [xs[0]] + xs[1..];
      k + 1
  }

  /** The names of the node-declaration lines, in order. */
  function Declared(lines: seq<Line>): seq<string>
  {
    if lines == [] then []
    else (if lines[0].Node? then [lines[0].name] else []) + Declared(lines[1..])
  }

  /** The (from, to) pairs of the edge lines, in order. */
  function EdgePairs(lines: seq<Line>): seq<(string, string)>
  {
    if lines == [] then []
    else (if lines[0].Edge? then [(lines[0].from, lines[0].to)] else []) + EdgePairs(lines[1..])
  }

  /** One pair per successor of record `s`, in successor order. */
  function SuccessorPairs(s: Status): seq<(string, string)>
  {
    seq(|s.nextStatus|, k requires 0 <= k < |s.nextStatus| => (s.name, s.nextStatus[k]))
  }

  /** Every (record name, successor) pair of the input, in record order, then
      successor order, repeats kept. */
  function Transitions(ss: seq<Status>): seq<(string, string)>
  {
    if ss == [] then [] else SuccessorPairs(ss[0]) + Transitions(ss[1..])
  }

  /** The sum of the lengths of the successor lists. */
  function SuccessorCount(ss: seq<Status>): nat
  {
    if ss == [] then 0 else |ss[0].nextStatus| + SuccessorCount(ss[1..])
  }

  /** Every edge line comes after the declaration lines of both its ends. */
  predicate DeclaresBeforeUse(lines: seq<Line>)
  {
    forall k :: 0 <= k < |lines| && lines[k].Edge? ==>
      Node(lines[k].from) in lines[..k] && Node(lines[k].to) in lines[..k]
  }

  // ---------------------------------------------------------------------
  // Projections of concatenated bodies

  lemma ElemsAppend(a: seq<string>, b: seq<string>)
    ensures Elems(a + b) == Elems(a) + Elems(b)
  {
  }

  lemma {:induction false} DeclaredAppend(a: seq<Line>, b: seq<Line>)
    ensures Declared(a + b) == Declared(a) + Declared(b)
  {
    if a == [] {
      assert a + b == b;
    } else {
      assert (a + b)[0] == a[0] && (a + b)[1..] == a[1..] + b;
      DeclaredAppend(a[1..], b);
    }
  }

  lemma {:induction false} EdgePairsAppend(a: seq<Line>, b: seq<Line>)
    ensures EdgePairs(a + b) == EdgePairs(a) + EdgePairs(b)
  {
    if a == [] {
      assert a + b == b;
    } else {
      assert (a + b)[0] == a[0] && (a + b)[1..] == a[1..] + b;
      EdgePairsAppend(a[1..], b);
    }
  }

  /** A name is declared exactly when a node line for it is present. */
  lemma {:induction false} DeclaredMembership(lines: seq<Line>, x: string)
    ensures x in Declared(lines) <==> Node(x) in lines
  {
    if lines != [] {
      DeclaredMembership(lines[1..], x);
      assert lines == [lines[0]] + lines[1..];
    }
  }

  // ---------------------------------------------------------------------
  // Node declarations: first-encounter order, exactly once

  /** Dropping repeats from a concatenation. */
  lemma {:induction false} NewNamesAppend(a: seq<string>, b: seq<string>, seen: set<string>)
    ensures NewNames(a + b, seen) == NewNames(a, seen) + NewNames(b, seen + Elems(a))
  {
    if a == [] {
      assert a + b == b;
      assert seen + Elems(a) == seen;
    } else {
      var x := a[0];
      var head := if x in seen then [] else [x];
      calc {
        NewNames(a + b, seen);
        { assert (a + b)[0] == x && (a + b)[1..] == a[1..] + b; }
        head + NewNames(a[1..] + b, seen + {x});
        { NewNamesAppend(a[1..], b, seen + {x}); }
        head + (NewNames(a[1..], seen + {x}) + NewNames(b, seen + {x} + Elems(a[1..])));
        { ElemsTail(a); assert seen + {x} + Elems(a[1..]) == seen + Elems(a); }
        head + (NewNames(a[1..], seen + {x}) + NewNames(b, seen + Elems(a)));
        (head + NewNames(a[1..], seen + {x})) + NewNames(b, seen + Elems(a));
        NewNames(a, seen) + NewNames(b, seen + Elems(a));
      }
    }
  }

  /** The inner loop declares exactly the new successors, in order. */
  lemma {:induction false} SuccessorDeclared(from: string, nexts: seq<string>, seen: set<string>)
    ensures Declared(SuccessorLines(from, nexts, seen)) == NewNames(nexts, seen)
  {
    if nexts != [] {
      var head := NodeIfNew(nexts[0], seen) + [Edge(from, nexts[0])];
      var tail := SuccessorLines(from, nexts[1..], seen + {nexts[0]});
      DeclaredAppend(head, tail);
      DeclaredAppend(NodeIfNew(nexts[0], seen), [Edge(from, nexts[0])]);
      SuccessorDeclared(from, nexts[1..], seen + {nexts[0]});
    }
  }

  /** The records together declare exactly the new names of the encounter
      sequence, in order. */
  lemma {:induction false} BodyDeclared(ss: seq<Status>, seen: set<string>)
    ensures Declared(BodyLines(ss, seen)) == NewNames(Encounters(ss), seen)
  {
    if ss != [] {
      var s := ss[0];
      var own := [s.name];
      var rest := Encounters(ss[1..]);
      // the record's own lines
      DeclaredAppend(NodeIfNew(s.name, seen), SuccessorLines(s.name, s.nextStatus, seen + {s.name}));
      SuccessorDeclared(s.name, s.nextStatus, seen + {s.name});
      NewNamesAppend(own, s.nextStatus, seen);
      assert Elems(own) == {s.name};
      assert own[1..] == [];
      // and those of the records after it
      DeclaredAppend(RecordLines(s, seen), BodyLines(ss[1..], seen + RecordNames(s)));
      BodyDeclared(ss[1..], seen + RecordNames(s));
      NewNamesAppend(own + s.nextStatus, rest, seen);
      assert Elems(own + s.nextStatus) == RecordNames(s);
    }
  }

  lemma ElemsCons(x: string, xs: seq<string>)
    ensures Elems([x] + xs) == {x} + Elems(xs)
  {
    assert forall y :: y in [x] + xs <==> y == x || y in xs;
  }

  lemma ElemsTail(xs: seq<string>)
    requires xs != []
    ensures Elems(xs) == {xs[0]} + Elems(xs[1..])
  {
    ElemsCons(xs[0], xs[1..]);
    assert xs == [xs[0]] + xs[1..];
  }

  /** Dropping repeats keeps the names of `xs` that are not in `seen`. */
  lemma {:induction false} NewNamesElems(xs: seq<string>, seen: set<string>)
    ensures Elems(NewNames(xs, seen)) == Elems(xs) - seen
  {
    if xs != [] {
      var x := xs[0];
      var rest := NewNames(xs[1..], seen + {x});
      NewNamesElems(xs[1..], seen + {x});
      ElemsTail(xs);
      if x !in seen {
        ElemsCons(x, rest);
      } else {
        assert NewNames(xs, seen) == rest;
      }
    }
  }

  /** Dropping repeats leaves pairwise distinct names. */
  lemma {:induction false} NewNamesDistinct(xs: seq<string>, seen: set<string>)
    ensures Distinct(NewNames(xs, seen))
  {
    if xs != [] {
      var x := xs[0];
      var rest := NewNames(xs[1..], seen + {x});
      NewNamesDistinct(xs[1..], seen + {x});
      if x !in seen {
        NewNamesElems(xs[1..], seen + {x});
        var r := [x] + rest;
        assert r == NewNames(xs, seen);
        forall i, j | 0 <= i < j < |r|
          ensures r[i] != r[j]
        {
          assert r[j] == rest[j - 1];
          if i == 0 {
            assert r[j] in Elems(rest);
          } else {
            assert r[i] == rest[i - 1];
          }
        }
      } else {
        assert NewNames(xs, seen) == rest;
      }
    }
  }

  lemma FirstIndexTail(xs: seq<string>, y: string)
    requires xs != [] && xs[0] != y
    ensures FirstIndex(xs, y) == FirstIndex(xs[1..], y) + 1
  {
  }

  /** A name kept from the tail sits one place further on in `xs`. */
  lemma TailIndex(xs: seq<string>, seen: set<string>, k: nat)
    requires xs != [] && k < |NewNames(xs[1..], seen + {xs[0]})|
    ensures FirstIndex(xs, NewNames(xs[1..], seen + {xs[0]})[k])
         == FirstIndex(xs[1..], NewNames(xs[1..], seen + {xs[0]})[k]) + 1
  {
    var rest := NewNames(xs[1..], seen + {xs[0]});
    NewNamesElems(xs[1..], seen + {xs[0]});
    assert rest[k] in Elems(rest);
    FirstIndexTail(xs, rest[k]);
  }

  /** A kept name other than a newly kept head is kept from the tail, `off`
      places earlier, and occurs first one place further on in `xs`. */
  lemma ShiftIndex(xs: seq<string>, seen: set<string>, k: nat, off: nat)
    requires xs != [] && k < |NewNames(xs, seen)|
    requires off == (if xs[0] in seen then 0 else 1) && off <= k
    ensures k - off < |NewNames(xs[1..], seen + {xs[0]})|
    ensures NewNames(xs, seen)[k] == NewNames(xs[1..], seen + {xs[0]})[k - off]
    ensures FirstIndex(xs, NewNames(xs, seen)[k])
         == FirstIndex(xs[1..], NewNames(xs[1..], seen + {xs[0]})[k - off]) + 1
  {
    var rest := NewNames(xs[1..], seen + {xs[0]});
    assert NewNames(xs, seen) == (if xs[0] in seen then [] else [xs[0]]) + rest;
    TailIndex(xs, seen, k - off);
  }

  lemma {:induction false} OrderPair(xs: seq<string>, seen: set<string>, i: nat, j: nat)
    requires i < j < |NewNames(xs, seen)|
    ensures FirstIndex(xs, NewNames(xs, seen)[i]) < FirstIndex(xs, NewNames(xs, seen)[j])
    decreases xs
  {
    var r, rest := NewNames(xs, seen), NewNames(xs[1..], seen + {xs[0]});
    var off := if xs[0] in seen then 0 else 1;
    ShiftIndex(xs, seen, j, off);
    var fj := FirstIndex(xs[1..], rest[j - off]);
    assert FirstIndex(xs, r[j]) == fj + 1;
    if off == 1 && i == 0 {
      assert r[0] == xs[0];
      assert FirstIndex(xs, r[i]) == 0;
    } else {
      ShiftIndex(xs, seen, i, off);
      var fi := FirstIndex(xs[1..], rest[i - off]);
      assert FirstIndex(xs, r[i]) == fi + 1;
      assert fi < fj by {
        OrderPair(xs[1..], seen + {xs[0]}, i - off, j - off);
      }
    }
  }

  /** The kept names come in the order of their first occurrences in `xs`. */
  lemma NewNamesOrder(xs: seq<string>, seen: set<string>)
    ensures forall i, j :: 0 <= i < j < |NewNames(xs, seen)| ==>
      FirstIndex(xs, NewNames(xs, seen)[i]) < FirstIndex(xs, NewNames(xs, seen)[j])
  {
    forall i, j | 0 <= i < j < |NewNames(xs, seen)| {
      OrderPair(xs, seen, i, j);
    }
  }

  /** Dropping repeats keeps as many names as the set they form. */
  lemma {:induction false} NewNamesCardinality(xs: seq<string>, seen: set<string>)
    ensures |Elems(NewNames(xs, seen))| == |NewNames(xs, seen)|
  {
    if xs != [] {
      var x := xs[0];
      var rest := NewNames(xs[1..], seen + {x});
      NewNamesCardinality(xs[1..], seen + {x});
      if x !in seen {
        NewNamesElems(xs[1..], seen + {x});
        ElemsCons(x, rest);
        assert NewNames(xs, seen) == [x] + rest;
      } else {
        assert NewNames(xs, seen) == rest;
      }
    }
  }

  /** The names the encounter sequence holds are the mentioned names. */
  lemma {:induction false} EncountersNames(ss: seq<Status>)
    ensures Elems(Encounters(ss)) == Mentioned(ss)
  {
    if ss != [] {
      EncountersNames(ss[1..]);
      MentionedCons(ss);
      var e := Encounters(ss);
      assert e == ([ss[0].name] + ss[0].nextStatus) + Encounters(ss[1..]);
      assert Elems(e) == RecordNames(ss[0]) + Elems(Encounters(ss[1..]));
    }
  }

  /** Node declarations: the names declared are the encounter sequence with
      repeats dropped; so every mentioned name is declared, exactly once, no
      other name is, and the declarations come in first-encounter order, a
      record's own name before its successors. */
  lemma NodeDeclarations(ss: seq<Status>)
    ensures Declared(Body(ss)) == Dedup(Encounters(ss))
    ensures Distinct(Declared(Body(ss)))
    ensures Elems(Declared(Body(ss))) == Mentioned(ss)
    ensures forall x :: x in Mentioned(ss) <==> Node(x) in Body(ss)
    ensures |Declared(Body(ss))| == |Mentioned(ss)|
    ensures forall i, j :: 0 <= i < j < |Declared(Body(ss))| ==>
      FirstIndex(Encounters(ss), Declared(Body(ss))[i]) < FirstIndex(Encounters(ss), Declared(Body(ss))[j])
  {
    var e := Encounters(ss);
    var d := Declared(Body(ss));
    assert d == NewNames(e, {}) by {
      BodyDeclared(ss, {});
    }
    assert Distinct(d) && Elems(d) == Mentioned(ss) by {
      NewNamesDistinct(e, {});
      NewNamesElems(e, {});
      EncountersNames(ss);
      assert Elems(e) - {} == Elems(e);
    }
    assert |Elems(d)| == |d| by {
      NewNamesCardinality(e, {});
    }
    NewNamesOrder(e, {});
    forall x
      ensures x in Mentioned(ss) <==> Node(x) in Body(ss)
    {
      DeclaredMembership(Body(ss), x);
      assert x in Elems(d) <==> x in d;
    }
  }

  // ---------------------------------------------------------------------
  // Edges: one per (record, successor) pair, in input order

  lemma {:induction false} SuccessorEdges(from: string, nexts: seq<string>, seen: set<string>)
    ensures EdgePairs(SuccessorLines(from, nexts, seen)) == SuccessorPairs(Status(from, nexts))
  {
    if nexts != [] {
      var head := NodeIfNew(nexts[0], seen) + [Edge(from, nexts[0])];
      EdgePairsAppend(head, SuccessorLines(from, nexts[1..], seen + {nexts[0]}));
      EdgePairsAppend(NodeIfNew(nexts[0], seen), [Edge(from, nexts[0])]);
      SuccessorEdges(from, nexts[1..], seen + {nexts[0]});
      assert SuccessorPairs(Status(from, nexts))
          == [(from, nexts[0])] + SuccessorPairs(Status(from, nexts[1..]));
    }
  }

  lemma {:induction false} BodyEdges(ss: seq<Status>, seen: set<string>)
    ensures EdgePairs(BodyLines(ss, seen)) == Transitions(ss)
  {
    if ss != [] {
      var s := ss[0];
      EdgePairsAppend(RecordLines(s, seen), BodyLines(ss[1..], seen + RecordNames(s)));
      EdgePairsAppend(NodeIfNew(s.name, seen), SuccessorLines(s.name, s.nextStatus, seen + {s.name}));
      SuccessorEdges(s.name, s.nextStatus, seen + {s.name});
      assert Status(s.name, s.nextStatus) == s;
      BodyEdges(ss[1..], seen + RecordNames(s));
    }
  }

  lemma {:induction false} TransitionsCount(ss: seq<Status>)
    ensures |Transitions(ss)| == SuccessorCount(ss)
  {
    if ss != [] {
      TransitionsCount(ss[1..]);
    }
  }

  /** Edges: the edge lines are exactly the (record, successor) pairs, in
      record order and then successor order, repeats kept; there are as many
      as the successor lists have entries in all. */
  lemma EdgeLines(ss: seq<Status>)
    ensures EdgePairs(Body(ss)) == Transitions(ss)
    ensures |EdgePairs(Body(ss))| == SuccessorCount(ss)
  {
    BodyEdges(ss, {});
    TransitionsCount(ss);
  }

  // ---------------------------------------------------------------------
  // Declaration before use

  /** Reading the lines in order with the names in `known` already declared,
      each edge finds both its ends declared. */
  predicate WellOrdered(lines: seq<Line>, known: set<string>)
  {
    lines == [] ||
    match lines[0]
    case Node(x) => WellOrdered(lines[1..], known + {x})
    case Edge(a, b) => a in known && b in known && WellOrdered(lines[1..], known)
  }

  lemma {:induction false} WellOrderedAppend(a: seq<Line>, b: seq<Line>, known: set<string>)
    requires WellOrdered(a, known)
    requires WellOrdered(b, known + Elems(Declared(a)))
    ensures WellOrdered(a + b, known)
  {
    if a == [] {
      assert a + b == b;
      assert known + Elems(Declared(a)) == known;
    } else {
      assert (a + b)[0] == a[0] && (a + b)[1..] == a[1..] + b;
      var known1 := if a[0].Node? then known + {a[0].name} else known;
      assert Declared(a) == (if a[0].Node? then [a[0].name] else []) + Declared(a[1..]);
      assert known + Elems(Declared(a)) == known1 + Elems(Declared(a[1..]));
      WellOrderedAppend(a[1..], b, known1);
    }
  }

  lemma {:induction false} SuccessorWellOrdered(from: string, nexts: seq<string>, seen: set<string>)
    requires from in seen
    ensures WellOrdered(SuccessorLines(from, nexts, seen), seen)
  {
    if nexts != [] {
      var next := nexts[0];
      var node := NodeIfNew(next, seen);
      assert Elems(Declared(node)) + seen == seen + {next};
      assert WellOrdered([Edge(from, next)], seen + {next});
      assert Elems(Declared([Edge(from, next)])) == {};
      WellOrderedAppend(node, [Edge(from, next)], seen);
      DeclaredAppend(node, [Edge(from, next)]);
      assert seen + Elems(Declared(node + [Edge(from, next)])) == seen + {next};
      SuccessorWellOrdered(from, nexts[1..], seen + {next});
      WellOrderedAppend(node + [Edge(from, next)], SuccessorLines(from, nexts[1..], seen + {next}), seen);
    }
  }

  lemma {:induction false} BodyWellOrdered(ss: seq<Status>, seen: set<string>)
    ensures WellOrdered(BodyLines(ss, seen), seen)
  {
    if ss != [] {
      var s := ss[0];
      var node := NodeIfNew(s.name, seen);
      var succ := SuccessorLines(s.name, s.nextStatus, seen + {s.name});
      assert seen + Elems(Declared(node)) == seen + {s.name};
      SuccessorWellOrdered(s.name, s.nextStatus, seen + {s.name});
      WellOrderedAppend(node, succ, seen);
      assert seen + Elems(Declared(RecordLines(s, seen))) == seen + RecordNames(s) by {
        DeclaredAppend(node, succ);
        SuccessorDeclared(s.name, s.nextStatus, seen + {s.name});
        NewNamesElems(s.nextStatus, seen + {s.name});
        ElemsAppend(Declared(node), Declared(succ));
      }
      BodyWellOrdered(ss[1..], seen + RecordNames(s));
      WellOrderedAppend(RecordLines(s, seen), BodyLines(ss[1..], seen + RecordNames(s)), seen);
    }
  }

  /** `x` was declared before line `k`, or beforehand. */
  predicate KnownAt(lines: seq<Line>, known: set<string>, k: nat, x: string)
    requires k <= |lines|
  {
    x in known || Node(x) in lines[..k]
  }

  lemma {:induction false} WellOrderedBeforeUse(lines: seq<Line>, known: set<string>)
    requires WellOrdered(lines, known)
    ensures forall k :: 0 <= k < |lines| && lines[k].Edge? ==>
      KnownAt(lines, known, k, lines[k].from) && KnownAt(lines, known, k, lines[k].to)
  {
    if lines != [] {
      var tl := lines[1..];
      var known1 := if lines[0].Node? then known + {lines[0].name} else known;
      WellOrderedBeforeUse(tl, known1);
      forall k | 0 <= k < |lines| && lines[k].Edge?
        ensures KnownAt(lines, known, k, lines[k].from) && KnownAt(lines, known, k, lines[k].to)
      {
        if k > 0 {
          assert lines[k] == tl[k - 1];
          assert lines[..k] == [lines[0]] + tl[..k - 1];
          assert KnownAt(tl, known1, k - 1, lines[k].from) && KnownAt(tl, known1, k - 1, lines[k].to);
        }
      }
    }
  }

  /** Every edge line comes after the declarations of both its endpoints. */
  lemma DeclarationBeforeUse(ss: seq<Status>)
    ensures DeclaresBeforeUse(Body(ss))
  {
    BodyWellOrdered(ss, {});
    WellOrderedBeforeUse(Body(ss), {});
  }

  // ---------------------------------------------------------------------
  // The loop state after a prefix of the records

  /** After the first `i` records, the names declared so far are exactly the
      names those records mention, which is what `visited` holds. */
  lemma DeclaredAfterPrefix(ss: seq<Status>, i: nat)
    requires i <= |ss|
    ensures Elems(Declared(Body(ss[..i]))) == Mentioned(ss[..i])
    ensures Body(ss) == Body(ss[..i]) + BodyLines(ss[i..], Mentioned(ss[..i]))
  {
    NodeDeclarations(ss[..i]);
    BodySplit(ss, i, {});
    assert {} + Mentioned(ss[..i]) == Mentioned(ss[..i]);
  }

  // ---------------------------------------------------------------------
  // The whole document

  /** With no records the document is the three header lines followed at
      once by the closing brace. */
  lemma EmptyDocument()
    ensures Body([]) == []
    ensures Document([]) == GraphOpen + RankDir + NodeStyle + Footer
  {
    assert Render(Body([])) == "";
  }

  // ---------------------------------------------------------------------
  // Concrete inputs

  /** The built-in sample flow: Start, In Progress, Completed, Failed. */
  const Sample: seq<Status> := [
    Status("Start", ["In Progress"]),
    Status("In Progress", ["Completed", "Failed"]),
    Status("Completed", []),
    Status("Failed", [])
  ]

  /** The records after the first, once Start and In Progress are declared. */
  lemma SampleRest()
    ensures BodyLines(Sample[1..], {"Start", "In Progress"}) ==
      [Node("Completed"), Edge("In Progress", "Completed"), Node("Failed"), Edge("In Progress", "Failed")]
  {
    var all := {"Start", "In Progress", "Completed", "Failed"};
    assert BodyLines(Sample[3..], all) == [] by {
      LeafRecord("Failed", all);
      assert Sample[3..][0] == Status("Failed", []) && Sample[3..][1..] == [];
    }
    assert BodyLines(Sample[2..], all) == [] by {
      LeafRecord("Completed", all);
      assert Sample[2..][0] == Status("Completed", []) && Sample[2..][1..] == Sample[3..];
      assert all + {"Completed"} == all;
    }
    SampleSecond();
    assert {"Start", "In Progress"} + {"In Progress", "Completed", "Failed"} == all;
    assert Sample[1..][1..] == Sample[2..];
  }

  /** The second record of the sample: both successors are new. */
  lemma SampleSecond()
    ensures RecordLines(Sample[1], {"Start", "In Progress"}) ==
      [Node("Completed"), Edge("In Progress", "Completed"), Node("Failed"), Edge("In Progress", "Failed")]
    ensures RecordNames(Sample[1]) == {"In Progress", "Completed", "Failed"}
  {
    var seen1 := {"Start", "In Progress"};
    assert Elems(["Completed", "Failed"]) == {"Completed", "Failed"};
    assert ["Completed", "Failed"][1..] == ["Failed"];
    assert ["Failed"][1..] == [];
    assert seen1 + {"In Progress"} == seen1;
    assert SuccessorLines("In Progress", ["Failed"], seen1 + {"Completed"})
      == [Node("Failed"), Edge("In Progress", "Failed")];
  }

  /** The first record of the sample: Start, then its new successor. */
  lemma SampleFirst()
    ensures RecordLines(Sample[0], {}) == [Node("Start"), Node("In Progress"), Edge("Start", "In Progress")]
    ensures RecordNames(Sample[0]) == {"Start", "In Progress"}
  {
    assert Elems(["In Progress"]) == {"In Progress"};
    assert {} + {"Start"} == {"Start"};
    assert ["In Progress"][1..] == [];
    assert SuccessorLines("Start", [], {"Start"} + {"In Progress"}) == [];
  }

  /** The sample flow gives four node declarations and three edges, each new
      successor declared just before the edge that reaches it. */
  lemma SampleBody()
    ensures Body(Sample) == [
      Node("Start"), Node("In Progress"), Edge("Start", "In Progress"),
      Node("Completed"), Edge("In Progress", "Completed"),
      Node("Failed"), Edge("In Progress", "Failed")]
  {
    var seen1 := {"Start", "In Progress"};
    var first := [Node("Start"), Node("In Progress"), Edge("Start", "In Progress")];
    var rest := [Node("Completed"), Edge("In Progress", "Completed"), Node("Failed"), Edge("In Progress", "Failed")];
    calc {
      Body(Sample);
      RecordLines(Sample[0], {}) + BodyLines(Sample[1..], {} + RecordNames(Sample[0]));
      { SampleFirst(); assert {} + seen1 == seen1; }
      first + BodyLines(Sample[1..], seen1);
      { SampleRest(); }
      first + rest;
    }
  }

  /** A record with no successors emits at most its own declaration. */
  lemma LeafRecord(name: string, seen: set<string>)
    ensures RecordLines(Status(name, []), seen) == NodeIfNew(name, seen)
    ensures RecordNames(Status(name, [])) == {name}
  {
    var e: seq<string> := [];
    assert Elems(e) == {};
    assert SuccessorLines(name, e, seen + {name}) == [];
  }

  /** A successor listed twice gets one declaration and two edges. */
  lemma RepeatedSuccessor()
    ensures Body([Status("Open", ["Closed", "Closed"])]) ==
      [Node("Open"), Node("Closed"), Edge("Open", "Closed"), Edge("Open", "Closed")]
  {
    var s := Status("Open", ["Closed", "Closed"]);
    assert [s][1..] == [];
    assert s.nextStatus[1..] == ["Closed"] && ["Closed"][1..] == [];
    assert {} + {"Open"} == {"Open"};
    assert {"Open"} + {"Closed"} + {"Closed"} == {"Open"} + {"Closed"};
    assert SuccessorLines("Open", ["Closed"], {"Open"} + {"Closed"}) == [Edge("Open", "Closed")];
    assert RecordLines(s, {}) ==
      [Node("Open"), Node("Closed"), Edge("Open", "Closed"), Edge("Open", "Closed")];
  }

  /** A record naming itself as successor gets one declaration and a loop. */
  lemma SelfLoop()
    ensures Body([Status("Retry", ["Retry"])]) == [Node("Retry"), Edge("Retry", "Retry")]
  {
    var s := Status("Retry", ["Retry"]);
    assert [s][1..] == [];
    assert s.nextStatus[1..] == [];
    assert {} + {"Retry"} == {"Retry"};
    assert {"Retry"} + {"Retry"} == {"Retry"};
    assert SuccessorLines("Retry", [], {"Retry"}) == [];
    assert SuccessorLines("Retry", ["Retry"], {"Retry"}) == [Edge("Retry", "Retry")];
    assert RecordLines(s, {}) == [Node("Retry"), Edge("Retry", "Retry")];
  }

  /** A name first met as a successor is declared there, and not again when
      its own record comes later. */
  lemma LaterRecordAlreadyDeclared()
    ensures Body([Status("A", ["B"]), Status("B", ["A"])]) ==
      [Node("A"), Node("B"), Edge("A", "B"), Edge("B", "A")]
  {
    var ss := [Status("A", ["B"]), Status("B", ["A"])];
    assert ss[1..][1..] == [];
    assert ["B"][1..] == [] && ["A"][1..] == [];
    assert Elems(["B"]) == {"B"} && Elems(["A"]) == {"A"};
    assert {} + {"A"} == {"A"};
    assert {"A"} + {"B"} == {"A", "B"};
    assert {"A", "B"} + {"B"} == {"A", "B"} && {"A", "B"} + {"A"} == {"A", "B"};
    assert SuccessorLines("A", [], {"A", "B"}) == [] && SuccessorLines("B", [], {"A", "B"}) == [];
    assert SuccessorLines("A", ["B"], {"A"}) == [Node("B"), Edge("A", "B")];
    assert RecordLines(ss[0], {}) == [Node("A"), Node("B"), Edge("A", "B")];
    assert RecordLines(ss[1], {"A", "B"}) == [Edge("B", "A")];
    assert ss[1..][0] == ss[1];
    assert BodyLines(ss[1..], {"A", "B"}) == [Edge("B", "A")];
    assert RecordNames(ss[0]) == {"A", "B"};
    assert {} + {"A", "B"} == {"A", "B"};
  }
}
