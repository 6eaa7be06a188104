# Status flow to Graphviz DOT

This project models the core of a small command-line tool. The tool takes an
ordered list of workflow states and turns it into a Graphviz DOT graph.
Each state is a `Status` record: a `Name` and a list `NextStatus` of the
states it may move to. `GenerateDOT` writes three fixed header lines. It then
walks the records in order, keeping a `visited` set. A name gets a node
declaration the first time it is met, whether as a record's own name or as a
successor. Each (record, successor) pair gets one edge, repeats included. The
document ends with a closing brace.

The project has three modules:

- `StatusFlow` (`status_flow.dfy`) holds the records and the text constants.
  It describes the graph body as a sequence of `Line`s (node or edge),
  computed by front-recursive functions that thread the set of names seen so
  far. It also holds `Render`, which turns the lines into text, and
  `Document`, which is header, body and footer. `GenerateDOT` and
  `EmitSuccessors` are imperative methods with the two nested loops of the
  Go `GenerateDOT`: a string accumulator and a mutable `visited` set. Their
  loop invariants say that the text built so far is the rendering of what
  the specification functions give for the input processed so far.
- `StatusFlowProperties` (`status_flow_properties.dfy`) states what the output
  promises against independent reference definitions:
  - the encounter order of names and that sequence without repeats;
  - the list of (record, successor) pairs;
  - the order in which declarations and edges appear.
  It also covers the sample flow that ships with the tool and a few small
  inputs.
- `DotText` (`dot_text.dfy`) is a reader for the generated text. Whatever it
  accepts re-renders to the same text. It recovers the body of every
  document whose names contain no double quote and no newline. It also shows
  that a name containing a quote can forge extra declarations, because names
  are inserted without escaping.

## Model

| member | source | states |
|---|---|---|
| StatusFlow.GenerateDOT | status_flow.go:23-49 | The text returned is exactly `Document(statuses)`: the header lines, the rendered body, then `}\n`. The outer loop invariant says that after `i` records `visited` is the set of names those records mention, and the text is the header followed by the rendered body of those `i` records. |
| StatusFlow.EmitSuccessors | status_flow.go:37-45 | After the inner loop over one record's successors, `visited` has gained exactly those successors. The text has gained each new successor's declaration followed by the edge to it, in list order, with an edge for every entry including repeats. The loop invariant says the same of the first `j` successors. |
| StatusFlow.Document | status_flow.go:24-47 | The document is the header, the rendered body and the footer. The constants `GraphOpen`, `RankDir` and `NodeStyle` hold the three header lines written at lines 24-26, and `Footer` holds the `}\n` written at line 47. The contract says every document is at least header plus footer long, begins with `digraph G {\n` followed by the other two header lines, and ends with `}\n`. |
| StatusFlow.NodeDecl | status_flow.go:33 | The text of a node declaration, also written at line 40: two spaces, the name verbatim between double quotes, `;` and a newline. |
| StatusFlow.NodeDeclLayout | status_flow.go:33 | `NodeDecl` is six characters longer than the name. It is two spaces and a quote, then the name unchanged, then `";` and a newline. |
| StatusFlow.EdgeDecl | status_flow.go:44 | The text of an edge: two spaces, the source name quoted, ` -> `, the target name quoted, `;` and a newline, both names verbatim. |
| StatusFlow.EdgeDeclLayout | status_flow.go:44 | `EdgeDecl` is twelve characters longer than its two names. It is two spaces and a quote, the first name, `" -> "`, the second name, then `";` and a newline, the names unchanged. |
| StatusFlow.RenderLine | status_flow.go:33-44 | A statement's text is its node or edge layout. Every statement text is at least six characters long, starts with two spaces and a quote, and ends with `";` and a newline. |
| StatusFlow.Render | status_flow.go:33-44 | The text the `dot +=` appends produce for a run of statements: their texts one after the other. |
| StatusFlow.RenderLines | status_flow.go:33-44 | Each rendered statement takes at least six characters, and a non-empty rendering ends with a newline. |
| StatusFlow.NodeIfNew | status_flow.go:32-35 | The `visited` test: the result is empty or the one declaration of the name, and it holds the declaration exactly when the name is not yet seen. |
| StatusFlow.SuccessorLines | status_flow.go:37-45 | The inner loop as statements: for each successor in order, its declaration when it is new to the seen set grown so far, then the edge to it. |
| StatusFlow.SuccessorLinesShape | status_flow.go:37-45 | The inner loop emits between one and two statements per successor. It ends with the edge to the last successor. Every declaration it emits names a successor the seen set did not hold. |
| StatusFlow.RecordLines | status_flow.go:30-45 | One pass of the outer loop: the record's own declaration when its name is new, then its successors with the name added to the seen set. The contract says a new record name is declared before anything else the record emits. |
| StatusFlow.BodyLines | status_flow.go:30-46 | The outer loop as statements, threading the seen set from record to record. The contract says that when the first record's name is new, the first statement declares it. |
| StatusFlow.Body | status_flow.go:27-46 | The body starts from an empty `visited`. For a non-empty input its first statement declares the first record's name. |
| StatusFlow.Mentioned | status_flow.go:27-42 | The names the records mention, as a record's name or as a successor. This is what `visited` holds once those records are processed. |
| StatusFlow.MentionedRecords | status_flow.go:30-42 | Each record's own name and successors are mentioned names, and the set is empty exactly when there are no records. |
| StatusFlow.RenderAppend | status_flow.go:33 | Rendering two runs of statements one after the other gives the concatenation of their texts, so appending to the accumulator is rendering in order. |
| StatusFlow.SuccessorSnoc | status_flow.go:37-45 | The statements for one more successor are those for the earlier successors, then its declaration if neither the seen set nor the earlier successors hold it, then its edge. |
| StatusFlow.SuccessorStep | status_flow.go:39-44 | One inner-loop step: the text for the first `j + 1` successors is the text for the first `j`, then the declaration of successor `j` only if it is not yet visited, then the edge to it. This carries the inner loop's invariant forward. |
| StatusFlow.BodySnoc | status_flow.go:30-46 | The body of the first `i + 1` records is the body of the first `i`, then what record `i` emits when the names the first `i` mention are seen. |
| StatusFlow.RecordStep | status_flow.go:30-35 | One outer-loop step: the text for the first `i + 1` records is the text for the first `i`, then record `i`'s own declaration only if its name is not yet mentioned, then its successors. This carries the outer loop's invariant forward. |
| StatusFlow.MentionedSnoc | status_flow.go:30 | The names mentioned by the records up to and including record `i` are those before it plus record `i`'s own name and successors. |
| StatusFlowProperties.FirstIndex | status_flow.go:30-42 | The name does not occur before the returned index, and when the index is within the sequence the name sits there. So it is the first occurrence, or the length when the name is absent. |
| StatusFlowProperties.NewNamesAppend | status_flow.go:27 | Dropping already-seen names from a concatenation is the same as dropping them from the first part, then from the second part with the first part's names added to the seen set. |
| StatusFlowProperties.SuccessorDeclared | status_flow.go:39-42 | The inner loop declares exactly the successors not yet seen, once each, in list order. |
| StatusFlowProperties.BodyDeclared | status_flow.go:30-42 | The declarations of the whole body are the encounter sequence (each record's name, then its successors) with already-seen names dropped. |
| StatusFlowProperties.NewNamesElems | status_flow.go:32-42 | The names kept by the `visited` test are exactly the encountered names that were not already seen. |
| StatusFlowProperties.NewNamesDistinct | status_flow.go:32-34 | The names kept by the `visited` test are pairwise distinct. |
| StatusFlowProperties.OrderPair | status_flow.go:30-42 | For any two kept names, the earlier one first occurs earlier in the encounter sequence. |
| StatusFlowProperties.NewNamesOrder | status_flow.go:30-42 | The kept names appear in order of their first occurrence in the encounter sequence. |
| StatusFlowProperties.NewNamesCardinality | status_flow.go:27 | The number of declarations equals the number of distinct names they cover. |
| StatusFlow.MentionedCons | status_flow.go:30 | The names mentioned by a non-empty list are the first record's names together with those mentioned by the rest. |
| StatusFlowProperties.EncountersNames | status_flow.go:30-37 | The names in the encounter sequence are exactly the names the records mention. |
| StatusFlowProperties.NodeDeclarations | status_flow.go:30-42 | Each distinct mentioned name is declared exactly once, and nothing else is declared. A name is mentioned if and only if a node line for it is present. The node count equals the number of distinct names. Declarations follow first-encounter order, so a record's own name comes before its new successors. |
| StatusFlowProperties.DeclaredMembership | status_flow.go:33 | A name is among the declared names if and only if its node statement is in the body. |
| StatusFlowProperties.SuccessorEdges | status_flow.go:44 | The edges of one record are (name, successor) for each successor, in order, repeats kept. |
| StatusFlowProperties.BodyEdges | status_flow.go:30-45 | The edges of the body are all (record, successor) pairs, in record order and then successor order. |
| StatusFlowProperties.TransitionsCount | status_flow.go:37 | There is one transition pair per successor-list entry. |
| StatusFlowProperties.EdgeLines | status_flow.go:37-45 | The edge count equals the sum of the lengths of the successor lists, and the edges keep input order with duplicates kept. |
| StatusFlowProperties.WellOrderedAppend | status_flow.go:27 | Reading two runs in order, each edge finds its ends declared if the first run is well ordered and the second is well ordered given the first run's declarations. |
| StatusFlowProperties.SuccessorWellOrdered | status_flow.go:39-44 | In the inner loop each edge follows the declarations of both its ends. |
| StatusFlowProperties.BodyWellOrdered | status_flow.go:30-45 | The whole body is read with every edge's ends already declared. |
| StatusFlowProperties.WellOrderedBeforeUse | status_flow.go:44 | Well-ordered reading means that at each edge's position both ends were declared earlier in the text. |
| StatusFlowProperties.DeclarationBeforeUse | status_flow.go:30-45 | Every edge line comes after the node lines of both its endpoints. |
| StatusFlow.BodySplit | status_flow.go:27-35 | The body splits after any number of records. The rest is emitted with the seen set equal to the names mentioned so far, which is the loop's `visited` set. |
| StatusFlowProperties.DeclaredAfterPrefix | status_flow.go:27-34 | After the first `i` records, the set of names declared so far equals the set of names those records mention. |
| StatusFlowProperties.EmptyDocument | status_flow.go:24-26 | With no records the body is empty and the document is the three header lines followed directly by `}\n`. |
| StatusFlowProperties.SampleBody | status_flow.go:96-101 | The built-in sample gives the following lines, in order: Start, In Progress, Start -> In Progress, Completed, In Progress -> Completed, Failed, In Progress -> Failed. |
| StatusFlowProperties.LeafRecord | status_flow.go:32-37 | A record with no successors emits only its own declaration, and only if its name is new. It mentions only its own name. |
| StatusFlowProperties.RepeatedSuccessor | status_flow.go:37-44 | A successor listed twice is declared once and gets two edges. |
| StatusFlowProperties.SelfLoop | status_flow.go:32-44 | A record listing itself is declared once and gets a loop edge. |
| StatusFlowProperties.LaterRecordAlreadyDeclared | status_flow.go:32 | A record whose name was first met as a successor is not declared again. |
| DotText.ParseInner | status_flow.go:33-44 | Any text between the quotes that the reader accepts (a name, or two names joined by an arrow) renders back to that same text. |
| DotText.ParseLine | status_flow.go:33 | Any statement the reader accepts renders back to the same text plus its newline. |
| DotText.ParseLines | status_flow.go:33-44 | Any run of statements the reader accepts renders back to exactly the input text. |
| DotText.ParseDocument | status_flow.go:24-47 | Any document the reader accepts is header, rendered statements, footer. |
| DotText.LineShape | status_flow.go:33-44 | Every statement whose names hold no quote or newline is its line text plus one newline, with no other newline. The line reader turns that text back into the statement. |
| DotText.LinesRoundTrip | status_flow.go:33-44 | Reading the rendering of statements whose names hold no quote or newline gives back the statements. |
| DotText.BodyNames | status_flow.go:33-44 | Every name in the body is a name the records mention. |
| DotText.DocumentRoundTrip | status_flow.go:23-49 | When no mentioned name holds a quote or a newline, reading the document back gives exactly its body. |
| DotText.QuotedNameForgesNodes | status_flow.go:33 | Names are inserted verbatim. The single record `A";\n  "B` yields the same document as separate records `A` and `B`, even though the bodies differ. |

## Left out

- WriteDOTToFile (status_flow.go:52-66): file creation and writing are I/O. The text it writes is the `GenerateDOT` result.
- GenerateGraphImage (status_flow.go:69-77): runs the external `dot` program. Subprocesses are out of scope.
- main (status_flow.go:79 onward): command-line flags, directory creation, reading JSON from standard input, and printing are all I/O. The static sample it can choose is modelled as `StatusFlowProperties.Sample`.
- `fmt.Sprintf` with `%s` is modelled as plain string concatenation. A Go string is a byte sequence and `%s` copies it unchanged, so characters stand in for bytes and no encoding is modelled.
- Go's map-as-set `visited` is a Dafny `set<string>`. Membership and insertion are the only operations used.
- Determinism is not stated as a lemma: `GenerateDOT` is specified to equal the function `Document` of its input, so equal inputs give equal outputs.
- The inner successor loop is its own method, `EmitSuccessors`, called from `GenerateDOT`. The loops and the order of appends are unchanged.
- Quoting: no escaping is modelled, because the Go `GenerateDOT` applies none. The consequence is stated by `DotText.QuotedNameForgesNodes` and by the restriction on names in `DotText.DocumentRoundTrip`.
- DocumentRoundTrip: names holding a newline are excluded because of how the reader is built, not because of the missing escaping. The reader splits the text at newlines before it looks at quotes. Such a document still has one reading, since quotes delimit every name. Only the double-quote half of the restriction comes from the serialiser.
- The literal text of the whole sample document is not spelled out. `SampleBody` gives its statements, and each statement's text is fixed by `NodeDecl` and `EdgeDecl`.
