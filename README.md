# Deterministic core of the high-school maths chatbot

The chatbot answers a maths question in three steps:

1. A generative model turns the question into a SPARQL query over a curriculum knowledge graph.
2. The query runs against the graph.
3. The model turns the retrieved rows into a tutor answer with an evidence list.

Three scripts maintain and show that graph:

- one links concepts by `prerequisiteOf` edges;
- one draws the graph as a network of styled nodes and edges;
- one rewrites the graph namespace across the project's files.

This project models the deterministic code around the model calls, and the three scripts. It proves what that code promises.

The modules are:

- `Common`: `Option`, `Result`, and distinctness of a sequence.
- `Text`: the Python string operations the code relies on: `in`, `replace`, `strip` and `split(c)[-1]`. A prefix test, `StartsWith`, is the helper that defines `in`.
- `Rdf`: the curriculum graph.
  - Terms are URIs, plain literals and blank nodes.
  - The triples form a sequence standing for one iteration order of rdflib's set.
  - `g.value` is the first match; `g.subjects(unique=True)` gives the subjects in order of first occurrence.
  - The graph is a `Graph` class whose `Add` is `g.add`.
- `PyJson`: the values `json.loads` produces, with Python's truth value, `in`, `[]` and `.get` on them.
- `ReasoningEngine`: `app/reasoning_engine.py`.
  - Reply cleaning.
  - The never-raising fallbacks of `generate_sparql` and `generate_answer`.
  - The data summary.
  - `execute_sparql`, as a method with nested loops proved against the record function it fills in.
- `ChatTurn`: the front end's handling of one question, in `streamlit_app.py`. It covers:
  - the gate that decides whether the query runs;
  - the `.get` defaults for the explanation, the answer and the evidence.
- `ConnectPrerequisites`: `connect_prerequisites.py`.
  - `find_concept` is a search loop.
  - `connect` mutates the shared `Graph`.
  - The whole curriculum of 64 pairs is applied in turn.
- `VisualizeGraph`: `visualize_graph.py`.
  - `get_label` and `get_group`.
  - The node loop and the edge loop.
  - The predicate local name and the edge style rules.
  - The drawing library is replaced by the lists of nodes and edges it is handed.
- `RefactorUri`: `refactor_uri.py`.
  - The file system is a `FileSystem` class holding a map from path to file.
  - The loop rewrites each listed file and accumulates `files_changed`.

The generative model, `json.loads`, `json.dumps` and `graph.query` are function parameters, and each may fail with a `Result`. A prompt is represented by the values it interpolates:

- the query model is a function of the question and the schema text;
- the answer model is a function of the question, the data summary and the explanation.

An exception that the code does not catch is a `Failure` outcome.

## Model

| member | source | states |
|---|---|---|
| Text.Replace | refactor_uri.py:38 | `str.replace` scanning left to right over non-overlapping occurrences; a text without the pattern is returned unchanged |
| Text.Strip | app/reasoning_engine.py:68 | `strip()` yields a contiguous piece of the input with no whitespace at either end, and a text already without edge whitespace is returned unchanged |
| Text.StripDropsWhitespace | app/reasoning_engine.py:68 | every character `strip()` removes, at either end, is whitespace |
| Text.StripKeepsAbsent | app/reasoning_engine.py:68 | stripping cannot create an occurrence of a pattern |
| Text.Contains | refactor_uri.py:37 | `p in s`: some position of `s` starts with `p` |
| Text.AfterLast | visualize_graph.py:63 | `s.split(c)[-1]`; AfterLastMeaning states what it yields |
| Text.AfterLastMeaning | visualize_graph.py:63 | `split(c)[-1]` is the suffix after the last `c`: it holds no `c`, and is preceded by a `c` unless it is the whole text |
| Rdf.Str | visualize_graph.py:62-63 | `str()` of a term: the IRI of a URI, the lexical form of a literal, the identifier of a blank node |
| Rdf.Truthy | visualize_graph.py:61 | Python's truth value of a term: its string form is non-empty |
| Rdf.HasType | visualize_graph.py:66-70 | `cls in list(g.objects(s, RDF.type))`; GetGroup states the groups through it |
| Rdf.Value | visualize_graph.py:60 | `g.value(s, p)` gives an object of some `(s, p, _)` triple, and None exactly when the graph has none |
| Rdf.Subjects | visualize_graph.py:85 | `g.subjects(unique=True)` lists exactly the subjects of the triples, each once |
| Rdf.Graph.constructor | connect_prerequisites.py:12-13 | the parsed graph holds the loaded triples, none twice |
| Rdf.Graph.Add | connect_prerequisites.py:31 | `g.add` adds a triple that is absent and otherwise changes nothing: the set of triples gains exactly that triple, and none occurs twice |
| PyJson.Truthy | streamlit_app.py:116 | Python's truth value of a parsed JSON value: false exactly for null, false, zero and empty strings, lists and dicts |
| PyJson.In | streamlit_app.py:116 | `"query" in res` is a key test on a dict and raises on null, booleans and numbers |
| PyJson.Index | streamlit_app.py:116 | `res["query"]` succeeds exactly on a dict holding the key |
| PyJson.Get | streamlit_app.py:120-123 | `.get` succeeds exactly on a dict; it yields the key's value when present and the default when missing |
| ReasoningEngine.Clean | app/reasoning_engine.py:68 | the cleaned reply holds no "```" and has no whitespace at either end |
| ReasoningEngine.RemovingFencesLeavesNone | app/reasoning_engine.py:68 | replacing every "```" by nothing, left to right, leaves no "```" |
| ReasoningEngine.StrippedHasNoFence | app/reasoning_engine.py:68 | removing the fences and then stripping leaves no "```" |
| ReasoningEngine.CleanKeepsBareReply | app/reasoning_engine.py:68 | a reply with no fence and no edge whitespace is left as it is |
| ReasoningEngine.CleanIdempotent | app/reasoning_engine.py:152 | cleaning twice equals cleaning once |
| ReasoningEngine.CleanUnwrapsCodeBlock | app/reasoning_engine.py:152 | a payload without backticks wrapped in a "```json" block comes out unwrapped and stripped |
| ReasoningEngine.ParseReply | app/reasoning_engine.py:66-70 | a value results only from a reply that arrived and whose cleaned text parsed, and it is the parsed value; each failure is passed on |
| ReasoningEngine.SparqlFallback | app/reasoning_engine.py:71-73 | the fallback has exactly the keys "query" and "explanation"; the query is the empty string and the explanation starts with "Error: " |
| ReasoningEngine.GenerateSparql | app/reasoning_engine.py:66-73 | never raises; a parsed reply is returned unchanged, with no field check; a failed call or a failed parse gives the fallback carrying the reason |
| ReasoningEngine.AnswerFallback | app/reasoning_engine.py:155-160 | the fallback has exactly the keys "answer" and "evidence"; the evidence is empty and the answer starts with the fixed error sentence |
| ReasoningEngine.DataSummary | app/reasoning_engine.py:99 | "No data found." when nothing was retrieved, otherwise the JSON dump of the records |
| ReasoningEngine.DataSummaryNoData | app/reasoning_engine.py:99 | given that `json.dumps` of a non-empty list opens with '[', the summary is "No data found." exactly when nothing was retrieved |
| ReasoningEngine.GenerateAnswer | app/reasoning_engine.py:150-160 | never raises; the model sees the question, the data summary and the explanation; a parsed reply is returned unchanged, and a failure gives the error answer |
| ReasoningEngine.Display | app/reasoning_engine.py:85-86 | `str(row[var])` for a bound variable and None for an unbound one; RecordHoldsEveryVariable states where it lands |
| ReasoningEngine.Put | app/reasoning_engine.py:86 | `item[k] = v` on an insertion-ordered dict; PutKeys and PutLookups state its effect |
| ReasoningEngine.ToRecord | app/reasoning_engine.py:83-87 | the dict built for one row; RecordHoldsEveryVariable and RecordKeysInOrder state its keys and values |
| ReasoningEngine.Keys | app/reasoning_engine.py:83-86 | a record's keys, in insertion order |
| ReasoningEngine.Lookup | app/reasoning_engine.py:86 | `item[k]` is missing exactly when `k` is not a key |
| ReasoningEngine.PutKeys | app/reasoning_engine.py:86 | `item[k] = v` keeps the place of an existing key and appends a new one |
| ReasoningEngine.PutLookups | app/reasoning_engine.py:86 | after `item[k] = v` the key maps to `v` and every other key to its old value |
| ReasoningEngine.RecordHoldsEveryVariable | app/reasoning_engine.py:84-86 | a record's keys are exactly the result variables; each maps to the string form of its binding, or None when unbound |
| ReasoningEngine.RecordKeysInOrder | app/reasoning_engine.py:84-86 | with distinct variables, the record's keys are the variables in their order |
| ReasoningEngine.RowRecords | app/reasoning_engine.py:81-88 | the `data` list, one record per row in row order; RecordPerRow states it |
| ReasoningEngine.RecordPerRow | app/reasoning_engine.py:82-87 | one record per row, in row order, each built from its own row |
| ReasoningEngine.QueryRecords | app/reasoning_engine.py:79-91 | what `execute_sparql` returns for a query outcome; ExecutionOutcome states it |
| ReasoningEngine.ExecutionOutcome | app/reasoning_engine.py:79-91 | a failing query, a non-SELECT result or a failure while iterating gives `[]` and never a partial list; otherwise one record per row with exactly the variables as keys and the row's bindings as values |
| ReasoningEngine.ExecuteSparql | app/reasoning_engine.py:75-91 | the nested loops return exactly the records of the query's outcome |
| ChatTurn.Gate | streamlit_app.py:116 | the query runs only for a dict whose "query" entry is truthy; on a dict the gate never raises; a falsy result never runs the query |
| ChatTurn.Retrieved | streamlit_app.py:116-117 | the records for a query that passed the gate; only a string is a query text, and anything else gives `[]` as the raised error does in `execute_sparql` |
| ChatTurn.TurnOf | streamlit_app.py:112-123 | one turn as a function of its inputs; the ChatTurn lemmas state its behaviour |
| ChatTurn.HandleQuestion | streamlit_app.py:112-123 | the front end's steps give exactly the turn's specification, an uncaught exception included |
| ChatTurn.DataNeedsQueryText | streamlit_app.py:115-117 | records are retrieved only for a synthesised dict whose "query" is a non-empty string |
| ChatTurn.FailedSynthesisSkipsQuery | streamlit_app.py:112-120 | when the query model's reply fails to arrive or fails to parse, nothing is retrieved, the answer model sees "Error: " and the reason as explanation, and the turn completes unless the answer is not a dict |
| ChatTurn.FailedAnswerShowsError | streamlit_app.py:120-123 | when the answer model's reply for this turn fails to arrive or fails to parse, the turn shows the error answer with empty evidence |
| ChatTurn.ObjectRepliesNeverCrash | streamlit_app.py:112-123 | when every parsed reply is a dict no step of the turn raises |
| ChatTurn.ShownFields | streamlit_app.py:122-123 | the turn shows the reply's own "answer" and "evidence" when present; a missing "answer" shows "No answer generated." and a missing "evidence" shows `[]` |
| ConnectPrerequisites.LabelledAs | connect_prerequisites.py:18-19 | `label and str(label) == label_name`: the node's first label is truthy and equals the name |
| ConnectPrerequisites.ConceptByLabel | connect_prerequisites.py:16-21 | `find_concept` as a function: the subject of the first Concept typing whose node carries the name as label; ConceptByLabelMeaning and ConceptByLabelFirst state what it finds |
| ConnectPrerequisites.FirstMatch | connect_prerequisites.py:17-20 | the position found is the first triple from the start position on that types a Concept carrying the label |
| ConnectPrerequisites.ConceptByLabelMeaning | connect_prerequisites.py:16-21 | `find_concept` returns a Concept-typed node whose first label equals the name exactly, and None exactly when there is no such node |
| ConnectPrerequisites.ConceptByLabelFirst | connect_prerequisites.py:17-20 | among several Concepts with the label, the one typed first in iteration order is returned |
| ConnectPrerequisites.EmptyLabelNeverFound | connect_prerequisites.py:18-19 | a node with no label or an empty label is never found, so the empty name finds nothing |
| ConnectPrerequisites.FindConcept | connect_prerequisites.py:16-21 | the search loop with early return gives exactly the label lookup |
| ConnectPrerequisites.Link | connect_prerequisites.py:24-31 | the `prerequisiteOf` triple from the parent's node to the child's node when both labels resolve to truthy nodes, otherwise none; ConnectEffect states its effect |
| ConnectPrerequisites.Connected | connect_prerequisites.py:24-31 | the graph after `connect` as a function of the graph before; ConnectEffect states its effect |
| ConnectPrerequisites.Connect | connect_prerequisites.py:24-31 | `connect` leaves the graph exactly as the connection function says, without duplicates |
| ConnectPrerequisites.ConnectEffect | connect_prerequisites.py:24-31 | when both labels resolve to truthy nodes the set of triples gains exactly the parent-to-child `prerequisiteOf` triple; otherwise the graph is unchanged; every existing triple remains |
| ConnectPrerequisites.ConceptByLabelIgnoresLink | connect_prerequisites.py:31 | adding a `prerequisiteOf` triple changes no label lookup |
| ConnectPrerequisites.ConnectKeepsLookups | connect_prerequisites.py:24-31 | connecting never changes what a label resolves to |
| ConnectPrerequisites.ConnectIdempotent | connect_prerequisites.py:31 | connecting the same labels twice equals connecting them once |
| ConnectPrerequisites.ConnectedAll | connect_prerequisites.py:36-118 | the graph after connecting the pairs in turn; ConnectedAllTriples states its triples |
| ConnectPrerequisites.ConnectedAllKeepsLookups | connect_prerequisites.py:36-118 | the whole run changes no label lookup |
| ConnectPrerequisites.ConnectedAllExtends | connect_prerequisites.py:36-118 | after the whole run every loaded triple is still in the graph |
| ConnectPrerequisites.ConnectedAllTriples | connect_prerequisites.py:36-118 | as a set, the graph after the run is the loaded triples plus the `prerequisiteOf` triple of every pair whose labels both resolve in the loaded graph |
| ConnectPrerequisites.ConnectAll | connect_prerequisites.py:36-118 | connecting the pairs in turn gives the run's triples and keeps the graph free of duplicates |
| ConnectPrerequisites.ConnectPrerequisites | connect_prerequisites.py:10-124 | the saved triples are the loaded graph after the whole curriculum, none twice |
| VisualizeGraph.EveryGroupStyled | visualize_graph.py:74-91 | every group has its own style entry, so the fallback lookup is never needed |
| VisualizeGraph.GroupName | visualize_graph.py:67-71 | the group strings "Subject", "Chapter", "Section", "Concept" and "Other" |
| VisualizeGraph.GetLabel | visualize_graph.py:59-63 | the first label when it is non-empty; otherwise the suffix of the URI after its last "/" |
| VisualizeGraph.GetGroup | visualize_graph.py:65-71 | the group follows the typings with priority Subject, Chapter, Section, Concept, then Other, each case as an if-and-only-if |
| VisualizeGraph.StyleFor | visualize_graph.py:91 | `styles.get(group, styles["Other"])`; EveryGroupStyled shows the fallback is never needed |
| VisualizeGraph.MakeNode | visualize_graph.py:87-100 | the node drawn for a URI subject; NodeStyle states its fields |
| VisualizeGraph.TitleHead | visualize_graph.py:94 | the first tooltip lines: bold label, type and URI; NodeTitle states how the tooltip extends it |
| VisualizeGraph.NodeTitle | visualize_graph.py:94-97 | the tooltip starts with label, group and URI, and goes on exactly when a non-empty comment exists, with the line `<br><i>comment</i>` |
| VisualizeGraph.PredicateName | visualize_graph.py:112 | `str(p).split("/")[-1].split("#")[-1]`; LocalNameIsSuffix states what it yields |
| VisualizeGraph.LocalNameIsSuffix | visualize_graph.py:112 | the predicate's local name is a suffix of its IRI holding neither "/" nor "#" |
| VisualizeGraph.EdgeLook | visualize_graph.py:116-126 | red width 2 exactly for names containing "prerequisiteOf"; grey width 3 exactly for other names containing "has"; light grey width 1 otherwise |
| VisualizeGraph.EdgeFor | visualize_graph.py:104-128 | the edge one triple gives, if any; EdgeForMeaning states when and which |
| VisualizeGraph.EdgeForMeaning | visualize_graph.py:104-128 | a triple gives an edge exactly when both ends are node URIs and its local name is not "type"; the edge runs subject to object, is titled with the local name, is not dashed and is styled by the name |
| VisualizeGraph.NodeList | visualize_graph.py:85-100 | the nodes handed to `net.add_node`, one per URI subject; NodePerUriSubject, NodeStyle and NodesOfCover state them |
| VisualizeGraph.NodeIds | visualize_graph.py:83-101 | `existing_nodes` after the node loop; NodePerUriSubject states that it holds exactly the URI subjects |
| VisualizeGraph.EdgeList | visualize_graph.py:104-128 | the edges handed to `net.add_edge`; EdgeListSound and EdgeListComplete state which |
| VisualizeGraph.AddNodes | visualize_graph.py:83-101 | the node loop yields the node list and records exactly the node identifiers |
| VisualizeGraph.AddEdges | visualize_graph.py:103-128 | the edge loop yields the edge list for the recorded identifiers |
| VisualizeGraph.VisualizeOntology | visualize_graph.py:82-128 | the nodes, then the edges between recorded nodes |
| VisualizeGraph.NodesOfFrom | visualize_graph.py:85-101 | each node is the one drawn for a URI among the subjects |
| VisualizeGraph.NodesOfCover | visualize_graph.py:85-101 | each URI among the subjects has a node |
| VisualizeGraph.NodesOfDistinct | visualize_graph.py:85-101 | distinct subjects give nodes with distinct identifiers |
| VisualizeGraph.NodePerUriSubject | visualize_graph.py:83-101 | every URI that is the subject of a triple gets exactly one node; nothing else does, and blank nodes get none |
| VisualizeGraph.NodeStyle | visualize_graph.py:89-100 | a node's caption is its label, and its group is its classification; its colour, shape and size are that group's style entry |
| VisualizeGraph.CollectSound | visualize_graph.py:104-128 | everything the edge loop collects comes from some triple |
| VisualizeGraph.CollectComplete | visualize_graph.py:104-128 | every triple the step keeps is collected |
| VisualizeGraph.EdgeListSound | visualize_graph.py:104-128 | every edge comes from a triple that qualifies for one |
| VisualizeGraph.EdgeListComplete | visualize_graph.py:104-128 | every qualifying triple gives its edge |
| VisualizeGraph.EdgesJoinNodes | visualize_graph.py:104-114 | every edge joins two nodes, is never dashed, and is titled with a local name that is not "type" and holds no "/" or "#" |
| RefactorUri.FileSystem.Write | refactor_uri.py:39-40 | writing replaces the text of that one file and nothing else |
| RefactorUri.Refactor | refactor_uri.py:31-50 | the loop leaves the files and `files_changed` as the run specifies, and reports the length of `files_changed` |
| RefactorUri.RefactorUri | refactor_uri.py:27-50 | the script over its fixed list leaves the files as the run specifies and reports how many it rewrote |
| RefactorUri.NoOldThroughNew | refactor_uri.py:3-4 | no occurrence of the old namespace can start inside or run through the new one |
| RefactorUri.NewIsNoOldTail | refactor_uri.py:3-4 | no text that starts with the new namespace starts like a proper tail of the old one |
| RefactorUri.ReplacedTail | refactor_uri.py:38 | rewritten text that starts like a tail of the old namespace comes from text that started that way |
| RefactorUri.ReplacedTailOf | refactor_uri.py:38 | the same, for any pattern and replacement meeting that condition |
| RefactorUri.NoOldAfterReplace | refactor_uri.py:37-38 | rewritten content holds no occurrence of the old namespace |
| RefactorUri.Rewritable | refactor_uri.py:32-41 | a file is rewritten when it exists, reads, mentions the old namespace and can be written |
| RefactorUri.Rewritten | refactor_uri.py:38-40 | the file with every occurrence of the old namespace replaced; NoOldAfterReplace states that none is left |
| RefactorUri.Run | refactor_uri.py:31-48 | the files and `files_changed` after the loop; RunFiles, RunChanged and RunOrder state them |
| RefactorUri.RunFiles | refactor_uri.py:31-48 | no file appears or disappears; a listed file is rewritten exactly when it exists, reads, mentions the old namespace and can be written; every other file keeps its content |
| RefactorUri.RunChanged | refactor_uri.py:31-41 | `files_changed` names exactly the rewritten files, each once, and is never longer than the list |
| RefactorUri.RunOrder | refactor_uri.py:31-41 | with a list naming each file once, `files_changed` holds the rewritable files in list order |
| RefactorUri.FilesToCheckDistinct | refactor_uri.py:7-25 | the fixed list names each file once |
| RefactorUri.RunOverNothing | refactor_uri.py:31-48 | a run that finds nothing rewritable changes nothing |
| RefactorUri.SecondRunChangesNothing | refactor_uri.py:37-38 | a second run rewrites nothing |

## Left out

- The Gemini configuration, the API-key check and the model call itself (app/reasoning_engine.py:1-18). The call is a parameter that may fail.
- Everything said only in prompt text (app/reasoning_engine.py:21-64, 101-148). This includes the out-of-curriculum marker, the ambiguity wording, the "Unknown" evidence rule and the tone. No code enforces them.
- SPARQL evaluation, Turtle parsing and serialisation, `json.loads` and `json.dumps`. These are parameters or left out.
  - JSON numbers are integers only; floats are not modelled.
  - Literals are plain, with no datatype or language tag, so a typed literal's truth value is not modelled.
- Text.Strip: removes only the whitespace characters below U+0080, not Unicode whitespace such as U+3000.
- Rdf.Value: returns the first match in iteration order. rdflib's `g.value` returns an arbitrary match when there are several.
- ConnectPrerequisites.FindConcept: scans the whole triple sequence for Concept typings. rdflib uses its index for `g.triples((None, RDF.type, NS.Concept))`, and that index's order is not modelled.
- The pyvis network, its physics options, the HTML file and the browser (visualize_graph.py:17-51, 130-138). The scripts' prints and the loading of the two Turtle files are left out too (visualize_graph.py:8-15).
- The streamlit session history, rendering, secrets and caching. Only the gate and the defaults at streamlit_app.py:112-123 are modelled.
- app/check_models.py and app/graph_loader.py are not part of this model. The schema text is an opaque string.
- The `__main__` blocks (app/reasoning_engine.py:162-193 and the scripts' own).
- RefactorUri.FileSystem.Write: a write either succeeds completely or fails before changing the file. Opening with 'w' truncates the file first, so a failure during the write itself would leave it empty; that case is not modelled.
- The scripts' console output, including `[UPDATED]`, `[SKIPPED]`, `[MISSING]` and `[LINK]`, and the `[ERROR]` diagnostics that `generate_sparql`, `execute_sparql` and `generate_answer` print before returning their fallbacks (app/reasoning_engine.py:72, 90, 156).
- Rdf.Graph: the sequence of triples fixes one iteration order, and `Add` places a new triple last; rdflib promises neither, and the scripts never depend on either, as they only search and serialise the graph.
- RefactorUri.Rewritten: a file's content is its text as Python reads it in UTF-8 text mode, with "\r\n" and "\r" already turned into "\n". A rewritten file therefore goes back to disk with its line endings normalised as well as the old namespace replaced; the model does not show the on-disk bytes.
