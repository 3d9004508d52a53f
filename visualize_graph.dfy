/** The graph-to-picture script: every URI subject of the curriculum graph becomes one
    styled node, and every triple between two such nodes, other than a typing, becomes
    a styled edge. The drawing library is replaced by the two lists it is handed. */
module VisualizeGraph {
  import opened Common
  import opened Text
  import opened Rdf

  /** The classes that decide a node's group. */
  const SUBJECT_CLASS: Term := Uri(NS + "Subject")
  const CHAPTER_CLASS: Term := Uri(NS + "Chapter")
  const SECTION_CLASS: Term := Uri(NS + "Section")
  const CONCEPT_CLASS: Term := Uri(NS + "Concept")

  datatype Group = Subject | Chapter | Section | Concept | Other

  function GroupName(g: Group): string {
    match g
    case Subject => "Subject"
    case Chapter => "Chapter"
    case Section => "Section"
    case Concept => "Concept"
    case Other => "Other"
  }

  datatype Style = Style(color: string, shape: string, size: int)

  /** The style table, one entry per group. */
  const STYLES: map<Group, Style> := map[
    Subject := Style("#FF6B6B", "database", 30),
    Chapter := Style("#4ECDC4", "box", 25),
    Section := Style("#FFE66D", "ellipse", 20),
    Concept := Style("#1A535C", "dot", 15),
    Other := Style("#97C2FC", "text", 10)
  ]

  /** `styles.get(group, styles["Other"])` */
  function StyleFor(g: Group): Style {
    if g in STYLES then STYLES[g] else STYLES[Other]
  }

  /** Every group has its own entry, so the fallback of the lookup is never taken. */
  lemma EveryGroupStyled(g: Group)
    ensures g in STYLES && StyleFor(g) == STYLES[g]
  {
  }

  /** A node as handed to the drawing library; `caption` is the label it shows. */
  datatype Node = Node(id: string, caption: string, title: string, color: string, shape: string, size: int, group: string)

  /** An edge as handed to the drawing library. */
  datatype Edge = Edge(source: string, target: string, title: string, color: string, width: int, dashes: bool)

  /** `get_label`: the node's first label when it is non-empty, otherwise the text after
      the last "/" of the node itself. */
  function GetLabel(ts: seq<Triple>, uri: Term): (r: string)
    ensures var lab := Value(ts, uri, RDFS_LABEL);
            && (lab.Some? && Truthy(lab.value) ==> r == Str(lab.value))
            && (!(lab.Some? && Truthy(lab.value)) ==>
                  && '/' !in r
                  && |r| <= |Str(uri)| && r == Str(uri)[|Str(uri)| - |r|..]
                  && (|r| < |Str(uri)| ==> Str(uri)[|Str(uri)| - |r| - 1] == '/'))
  {
    AfterLastMeaning(Str(uri), '/');
    var lab := Value(ts, uri, RDFS_LABEL);
    if lab.Some? && Truthy(lab.value) then Str(lab.value) else AfterLast(Str(uri), '/')
  }

  /** `get_group`: the first of Subject, Chapter, Section and Concept the node is typed
      with, or Other. */
  function GetGroup(ts: seq<Triple>, uri: Term): (r: Group)
    ensures r == Subject <==> HasType(ts, uri, SUBJECT_CLASS)
    ensures r == Chapter <==> !HasType(ts, uri, SUBJECT_CLASS) && HasType(ts, uri, CHAPTER_CLASS)
    ensures r == Section <==> !HasType(ts, uri, SUBJECT_CLASS) && !HasType(ts, uri, CHAPTER_CLASS)
                              && HasType(ts, uri, SECTION_CLASS)
    ensures r == Concept <==> !HasType(ts, uri, SUBJECT_CLASS) && !HasType(ts, uri, CHAPTER_CLASS)
                              && !HasType(ts, uri, SECTION_CLASS) && HasType(ts, uri, CONCEPT_CLASS)
    ensures r == Other <==> !HasType(ts, uri, SUBJECT_CLASS) && !HasType(ts, uri, CHAPTER_CLASS)
                            && !HasType(ts, uri, SECTION_CLASS) && !HasType(ts, uri, CONCEPT_CLASS)
  {
    if HasType(ts, uri, SUBJECT_CLASS) then Subject
    else if HasType(ts, uri, CHAPTER_CLASS) then Chapter
    else if HasType(ts, uri, SECTION_CLASS) then Section
    else if HasType(ts, uri, CONCEPT_CLASS) then Concept
    else Other
  }

  /** The first three lines of a node's tooltip: label, group and URI. */
  function TitleHead(lbl: string, group: string, uri: Term): string {
    "<b>" + lbl + "</b><br>Type: " + group + "<br>URI: " + Str(uri)
  }

  /** The tooltip: the head, followed by the comment line exactly when the node has a
      non-empty first comment. */
  function NodeTitle(ts: seq<Triple>, uri: Term, lbl: string, group: string): (r: string)
    ensures var head := TitleHead(lbl, group, uri);
            var comment := Value(ts, uri, RDFS_COMMENT);
            && |head| <= |r| && r[..|head|] == head
            && (|r| > |head| <==> comment.Some? && Truthy(comment.value))
            && (comment.Some? && Truthy(comment.value) ==> r[|head|..] == "<br><i>" + Str(comment.value) + "</i>")
  {
    var head := TitleHead(lbl, group, uri);
    var comment := Value(ts, uri, RDFS_COMMENT);
    if comment.Some? && Truthy(comment.value) then head + "<br><i>" + Str(comment.value) + "</i>" else head
  }

  /** The node drawn for a URI subject. */
  function MakeNode(ts: seq<Triple>, s: Term): Node {
    var lbl := GetLabel(ts, s);
    var group := GetGroup(ts, s);
    var style := StyleFor(group);
    Node(Str(s), lbl, NodeTitle(ts, s, lbl, GroupName(group)), style.color, style.shape, style.size, GroupName(group))
  }

  /** The nodes drawn for a sequence of subjects: one per URI, in order. */
  function NodesOf(ts: seq<Triple>, subjects: seq<Term>): seq<Node>
    decreases |subjects|
  {
    if |subjects| == 0 then []
    else
      var prev := NodesOf(ts, subjects[..|subjects| - 1]);
      var s := subjects[|subjects| - 1];
      if s.Uri? then prev + [MakeNode(ts, s)] else prev
  }

  /** The identifiers of the URIs among `subjects`. */
  function IdsOf(subjects: seq<Term>): set<string> {
    set s | s in subjects && s.Uri? :: s.iri
  }

  /** The nodes of the picture. */
  function NodeList(ts: seq<Triple>): seq<Node> {
    NodesOf(ts, Subjects(ts))
  }

  /** The identifiers of the nodes of the picture: `existing_nodes` after the first loop. */
  function NodeIds(ts: seq<Triple>): set<string> {
    IdsOf(Subjects(ts))
  }

  lemma AbsentFromSuffix(s: string, k: nat, c: char)
    requires k <= |s| && c !in s
    ensures c !in s[k..]
  {
  }

  /** `str(p).split("/")[-1].split("#")[-1]` for `iri = str(p)`: the predicate's local
      name, a suffix of its IRI holding neither "/" nor "#". */
  function PredicateName(iri: string): string {
    AfterLast(AfterLast(iri, '/'), '#')
  }

  /** The local name is a suffix of the IRI holding neither "/" nor "#". */
  lemma {:induction false} LocalNameIsSuffix(iri: string)
    ensures var r := PredicateName(iri);
            '/' !in r && '#' !in r && |r| <= |iri| && r == iri[|iri| - |r|..]
  {
    var m := AfterLastStart(iri, '/');
    var afterSlash := iri[m..];
    assert '/' !in afterSlash by {
      NoSeparatorAfterLast(iri, '/');
    }
    var k := AfterLastStart(afterSlash, '#');
    var r := afterSlash[k..];
    assert r == PredicateName(iri);
    assert '#' !in r by {
      NoSeparatorAfterLast(afterSlash, '#');
    }
    AbsentFromSuffix(afterSlash, k, '/');
    assert r == iri[m + k..] by {
      assert iri[m..][k..] == iri[m + k..];
    }
  }

  datatype Look = Look(color: string, width: int)

  /** The fragments of a predicate name that select the prerequisite and the hierarchy
      edge styles. */
  const PREREQUISITE_MARK: string := "prerequisiteOf"
  const HIERARCHY_MARK: string := "has"

  /** The colour and width of an edge named `name`: prerequisite links first, then
      hierarchy links, then everything else. */
  function EdgeLook(name: string): (r: Look)
    ensures r.width == 2 <==> Contains(name, PREREQUISITE_MARK)
    ensures r.width == 3 <==> !Contains(name, PREREQUISITE_MARK) && Contains(name, HIERARCHY_MARK)
    ensures r.width == 1 <==> !Contains(name, PREREQUISITE_MARK) && !Contains(name, HIERARCHY_MARK)
    ensures r.color == (if r.width == 2 then "#FF4040" else if r.width == 3 then "#848484" else "#bdbdbd")
  {
    if Contains(name, PREREQUISITE_MARK) then Look("#FF4040", 2)
    else if Contains(name, HIERARCHY_MARK) then Look("#848484", 3)
    else Look("#bdbdbd", 1)
  }

  /** The edge drawn for one triple, given the node identifiers: only between two URIs
      that are both nodes, and never for a predicate named "type". */
  function EdgeFor(ids: set<string>, t: Triple): Option<Edge> {
    if t.s.Uri? && t.o.Uri? && Str(t.s) in ids && Str(t.o) in ids && PredicateName(Str(t.p)) != "type" then
      var name := PredicateName(Str(t.p));
      var look := EdgeLook(name);
      Some(Edge(Str(t.s), Str(t.o), name, look.color, look.width, false))
    else None
  }

  /** A triple gives an edge exactly when it joins two node URIs by a predicate whose
      local name is not "type"; the edge runs from subject to object, is titled with that
      name, is drawn solid and is coloured by the name. */
  lemma EdgeForMeaning(ids: set<string>, t: Triple)
    ensures var r := EdgeFor(ids, t);
            && (r.Some? <==> t.s.Uri? && t.o.Uri? && Str(t.s) in ids && Str(t.o) in ids
                             && PredicateName(Str(t.p)) != "type")
            && (r.Some? ==> r.value.source == Str(t.s) && r.value.target == Str(t.o)
                            && r.value.title == PredicateName(Str(t.p)) && !r.value.dashes
                            && Look(r.value.color, r.value.width) == EdgeLook(PredicateName(Str(t.p))))
  {
  }

  /** The edge step for fixed node identifiers, as a function of the triple alone. */
  function EdgeOf(ids: set<string>): Triple -> Option<Edge> {
    t => EdgeFor(ids, t)
  }

  /** What a step that may skip gives over the triples, in iteration order. */
  function Collect(ts: seq<Triple>, f: Triple -> Option<Edge>): seq<Edge>
    decreases |ts|
  {
    if |ts| == 0 then []
    else
      var prev := Collect(ts[..|ts| - 1], f);
      match f(ts[|ts| - 1])
      case None => prev
      case Some(e) => prev + [e]
  }

  /** The edges drawn for the triples, in iteration order. */
  function EdgeList(ts: seq<Triple>, ids: set<string>): seq<Edge> {
    Collect(ts, EdgeOf(ids))
  }

  lemma CollectStep(ts: seq<Triple>, k: nat, f: Triple -> Option<Edge>)
    requires k < |ts|
    ensures Collect(ts[..k + 1], f) ==
              Collect(ts[..k], f) + (if f(ts[k]).Some? then [f(ts[k]).value] else [])
  {
    assert ts[..k + 1][..k] == ts[..k];
  }

  lemma NodesOfStep(ts: seq<Triple>, subjects: seq<Term>, i: nat)
    requires i < |subjects|
    ensures var s := subjects[i];
            && NodesOf(ts, subjects[..i + 1]) == NodesOf(ts, subjects[..i]) + (if s.Uri? then [MakeNode(ts, s)] else [])
            && IdsOf(subjects[..i + 1]) == IdsOf(subjects[..i]) + (if s.Uri? then {s.iri} else {})
  {
    assert subjects[..i + 1] == subjects[..i] + [subjects[i]];
    assert subjects[..i + 1][..i] == subjects[..i];
  }

  /** The node loop: one node per URI subject, each identifier recorded in
      `existing_nodes`. */
  method AddNodes(ts: seq<Triple>) returns (nodes: seq<Node>, existing: set<string>)
    ensures nodes == NodeList(ts)
    ensures existing == NodeIds(ts)
  {
    var subjects := Subjects(ts);
    existing := {};
    nodes := [];
    var i := 0;
    while i < |subjects|
      invariant 0 <= i <= |subjects|
      invariant nodes == NodesOf(ts, subjects[..i])
      invariant existing == IdsOf(subjects[..i])
    {
      var s := subjects[i];
      NodesOfStep(ts, subjects, i);
      if s.Uri? {
        var strS := Str(s);
        var lbl := GetLabel(ts, s);
        var group := GetGroup(ts, s);
        var style := StyleFor(group);
        var title := TitleHead(lbl, GroupName(group), s);
        var comment := Value(ts, s, RDFS_COMMENT);
        if comment.Some? && Truthy(comment.value) {
          title := title + "<br><i>" + Str(comment.value) + "</i>";
        }
        nodes := nodes + [Node(strS, lbl, title, style.color, style.shape, style.size, GroupName(group))];
        existing := existing + {strS};
      }
      i := i + 1;
    }
    assert subjects[..i] == subjects;
  }

  /** The edge loop over all triples, given the recorded node identifiers. */
  method AddEdges(ts: seq<Triple>, existing: set<string>) returns (edges: seq<Edge>)
    ensures edges == EdgeList(ts, existing)
  {
    edges := [];
    var k := 0;
    while k < |ts|
      invariant 0 <= k <= |ts|
      invariant edges == EdgeList(ts[..k], existing)
    {
      var t := ts[k];
      CollectStep(ts, k, EdgeOf(existing));
      assert EdgeOf(existing)(t) == EdgeFor(existing, t);
      if t.s.Uri? && t.o.Uri? {
        var strS, strO := Str(t.s), Str(t.o);
        if strS in existing && strO in existing {
          var propName := PredicateName(Str(t.p));
          if propName != "type" {
            var width, edgeColor, dashes := 1, "#bdbdbd", false;
            if Contains(propName, PREREQUISITE_MARK) {
              edgeColor, width := "#FF4040", 2;
            } else if Contains(propName, HIERARCHY_MARK) {
              edgeColor, width := "#848484", 3;
            }
            edges := edges + [Edge(strS, strO, propName, edgeColor, width, dashes)];
          }
        }
      }
      k := k + 1;
    }
    assert ts[..k] == ts;
  }

  /** `visualize_ontology` after loading and before saving: first the nodes, then the
      edges between them. */
  method VisualizeOntology(ts: seq<Triple>) returns (nodes: seq<Node>, edges: seq<Edge>)
    ensures nodes == NodeList(ts)
    ensures edges == EdgeList(ts, NodeIds(ts))
  {
    var existing;
    nodes, existing := AddNodes(ts);
    edges := AddEdges(ts, existing);
  }

  /** Each node is the one drawn for a URI among the subjects. */
  lemma {:induction false} NodesOfFrom(ts: seq<Triple>, subjects: seq<Term>)
    ensures forall n :: n in NodesOf(ts, subjects) ==> n.id in IdsOf(subjects) && n == MakeNode(ts, Uri(n.id))
    decreases |subjects|
  {
    if |subjects| > 0 {
      var init, s := subjects[..|subjects| - 1], subjects[|subjects| - 1];
      assert subjects == init + [s];
      NodesOfFrom(ts, init);
      assert IdsOf(subjects) == IdsOf(init) + (if s.Uri? then {s.iri} else {});
    }
  }

  /** Each URI among the subjects has a node. */
  lemma {:induction false} NodesOfCover(ts: seq<Triple>, subjects: seq<Term>)
    ensures forall x :: x in IdsOf(subjects) ==> exists n :: n in NodesOf(ts, subjects) && n.id == x
    decreases |subjects|
  {
    if |subjects| > 0 {
      var init, s := subjects[..|subjects| - 1], subjects[|subjects| - 1];
      assert subjects == init + [s];
      NodesOfCover(ts, init);
      assert IdsOf(subjects) == IdsOf(init) + (if s.Uri? then {s.iri} else {});
      if s.Uri? {
        assert MakeNode(ts, s) in NodesOf(ts, subjects);
      }
    }
  }

  /** The last of distinct subjects, when a URI, is not among the URIs before it. */
  lemma LastUriFresh(subjects: seq<Term>)
    requires Distinct(subjects) && |subjects| > 0 && subjects[|subjects| - 1].Uri?
    ensures subjects[|subjects| - 1].iri !in IdsOf(subjects[..|subjects| - 1])
  {
  }

  /** Distinct subjects give nodes with distinct identifiers. */
  lemma {:induction false} NodesOfDistinct(ts: seq<Triple>, subjects: seq<Term>)
    requires Distinct(subjects)
    ensures forall i, j :: 0 <= i < j < |NodesOf(ts, subjects)| ==> NodesOf(ts, subjects)[i].id != NodesOf(ts, subjects)[j].id
    decreases |subjects|
  {
    if |subjects| > 0 {
      var init, s := subjects[..|subjects| - 1], subjects[|subjects| - 1];
      assert Distinct(init) by {
        forall i, j | 0 <= i < j < |init|
          ensures init[i] != init[j]
        {
          assert init[i] == subjects[i] && init[j] == subjects[j];
        }
      }
      NodesOfDistinct(ts, init);
      if s.Uri? {
        NodesOfFrom(ts, init);
        LastUriFresh(subjects);
        var prev := NodesOf(ts, init);
        forall i | 0 <= i < |prev|
          ensures prev[i].id != s.iri
        {
          assert prev[i] in prev;
        }
      }
    }
  }

  /** Every distinct URI that is the subject of some triple gets exactly one node, and
      nothing else does: blank-node subjects get none. */
  lemma NodePerUriSubject(ts: seq<Triple>)
    ensures forall x :: x in NodeIds(ts) <==> exists t :: t in ts && t.s == Uri(x)
    ensures forall x :: (exists n :: n in NodeList(ts) && n.id == x) <==> x in NodeIds(ts)
    ensures forall i, j :: 0 <= i < j < |NodeList(ts)| ==> NodeList(ts)[i].id != NodeList(ts)[j].id
  {
    NodesOfCover(ts, Subjects(ts));
    NodesOfFrom(ts, Subjects(ts));
    NodesOfDistinct(ts, Subjects(ts));
    forall x | exists t :: t in ts && t.s == Uri(x)
      ensures x in NodeIds(ts)
    {
      assert Uri(x) in Subjects(ts);
    }
  }

  /** A node's caption (its label), group, colour, shape and size are those of its own URI: the
      colour, shape and size are the style entry of the group it is classified in. */
  lemma NodeStyle(ts: seq<Triple>, n: Node)
    requires n in NodeList(ts)
    ensures var g := GetGroup(ts, Uri(n.id));
            && n.group == GroupName(g)
            && g in STYLES && STYLES[g] == Style(n.color, n.shape, n.size)
            && n.caption == GetLabel(ts, Uri(n.id))
  {
    NodesOfFrom(ts, Subjects(ts));
  }

  /** Everything collected comes from some triple. */
  lemma {:induction false} CollectSound(ts: seq<Triple>, f: Triple -> Option<Edge>)
    ensures forall e :: e in Collect(ts, f) ==> exists t :: t in ts && f(t) == Some(e)
    decreases |ts|
  {
    if |ts| > 0 {
      var init, last := ts[..|ts| - 1], ts[|ts| - 1];
      CollectSound(init, f);
      forall e | e in Collect(ts, f)
        ensures exists t :: t in ts && f(t) == Some(e)
      {
        if e in Collect(init, f) {
          var t :| t in init && f(t) == Some(e);
          assert t == ts[IndexIn(init, t)];
        } else {
          assert f(last) == Some(e);
        }
      }
    }
  }

  /** Every triple the step keeps is collected. */
  lemma {:induction false} CollectComplete(ts: seq<Triple>, f: Triple -> Option<Edge>)
    ensures forall t :: t in ts && f(t).Some? ==> f(t).value in Collect(ts, f)
    decreases |ts|
  {
    if |ts| > 0 {
      var init, last := ts[..|ts| - 1], ts[|ts| - 1];
      CollectComplete(init, f);
      forall t | t in ts && f(t).Some?
        ensures f(t).value in Collect(ts, f)
      {
        if t != last {
          var i := IndexIn(ts, t);
          assert t == init[i];
        }
      }
    }
  }

  /** Every edge comes from a triple that qualifies for one. */
  lemma EdgeListSound(ts: seq<Triple>, ids: set<string>)
    ensures forall e :: e in EdgeList(ts, ids) ==> exists t :: t in ts && EdgeFor(ids, t) == Some(e)
  {
    CollectSound(ts, EdgeOf(ids));
    forall e | e in EdgeList(ts, ids)
      ensures exists t :: t in ts && EdgeFor(ids, t) == Some(e)
    {
      var t :| t in ts && EdgeOf(ids)(t) == Some(e);
      assert EdgeOf(ids)(t) == EdgeFor(ids, t);
    }
  }

  /** Every triple that qualifies for an edge gives one. */
  lemma EdgeListComplete(ts: seq<Triple>, ids: set<string>)
    ensures forall t :: t in ts && EdgeFor(ids, t).Some? ==> EdgeFor(ids, t).value in EdgeList(ts, ids)
  {
    CollectComplete(ts, EdgeOf(ids));
    forall t | t in ts && EdgeFor(ids, t).Some?
      ensures EdgeFor(ids, t).value in EdgeList(ts, ids)
    {
      assert EdgeOf(ids)(t) == EdgeFor(ids, t);
    }
  }

  /** A position at which `t` occurs in `ts`. */
  function IndexIn(ts: seq<Triple>, t: Triple): (i: nat)
    requires t in ts
    ensures i < |ts| && ts[i] == t
  {
    if ts[0] == t then 0 else 1 + IndexIn(ts[1..], t)
  }

  /** Every edge joins two nodes of the picture, is titled with its predicate's local
      name, which is never "type", and is never dashed. */
  lemma EdgesJoinNodes(ts: seq<Triple>)
    ensures forall e :: e in EdgeList(ts, NodeIds(ts)) ==>
              && e.source in NodeIds(ts) && e.target in NodeIds(ts)
              && e.title != "type" && '/' !in e.title && '#' !in e.title
              && !e.dashes
  {
    var ids := NodeIds(ts);
    EdgeListSound(ts, ids);
    forall e | e in EdgeList(ts, ids)
      ensures && e.source in ids && e.target in ids
              && e.title != "type" && '/' !in e.title && '#' !in e.title
              && !e.dashes
    {
      var t :| t in ts && EdgeFor(ids, t) == Some(e);
      EdgeForMeaning(ids, t);
      LocalNameIsSuffix(Str(t.p));
    }
  }
}
