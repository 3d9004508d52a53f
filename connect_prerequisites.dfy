/** The prerequisite-authoring script: look concepts up by their exact label and add a
    `prerequisiteOf` edge from parent to child when both resolve, for the whole
    curriculum in turn. The graph is loaded from and saved to Turtle outside this
    model. */
module ConnectPrerequisites {
  import opened Common
  import opened Rdf

  const CONCEPT: Term := Uri(NS + "Concept")
  const PREREQUISITE_OF: Term := Uri(NS + "prerequisiteOf")

  /** `label and str(label) == name` for `label = g.value(s, RDFS.label)`: the first
      label is present, non-empty and equal to `name` character for character. */
  predicate LabelledAs(ts: seq<Triple>, s: Term, name: string) {
    var lab := Value(ts, s, RDFS_LABEL);
    lab.Some? && Truthy(lab.value) && Str(lab.value) == name
  }

  /** A triple `find_concept` stops at: it types its subject as a Concept, and that
      subject carries the label. */
  predicate Matches(ts: seq<Triple>, t: Triple, name: string) {
    t.p == RDF_TYPE && t.o == CONCEPT && LabelledAs(ts, t.s, name)
  }

  /** The position of the first matching triple at or after `i`, if any. */
  function FirstMatch(ts: seq<Triple>, name: string, i: nat): (r: Option<nat>)
    requires i <= |ts|
    ensures r.Some? ==> i <= r.value < |ts| && Matches(ts, ts[r.value], name)
    ensures forall j :: i <= j < (if r.Some? then r.value else |ts|) ==> !Matches(ts, ts[j], name)
    decreases |ts| - i
  {
    if i == |ts| then None
    else if Matches(ts, ts[i], name) then Some(i)
    else FirstMatch(ts, name, i + 1)
  }

  /** What `find_concept(name)` returns. */
  function ConceptByLabel(ts: seq<Triple>, name: string): Option<Term> {
    var k := FirstMatch(ts, name, 0);
    if k.Some? then Some(ts[k.value].s) else None
  }

  /** The result is a node typed Concept whose label is exactly `name`, and there is
      none exactly when no such node exists. */
  lemma ConceptByLabelMeaning(ts: seq<Triple>, name: string)
    ensures var r := ConceptByLabel(ts, name);
            && (r.Some? ==> HasType(ts, r.value, CONCEPT) && LabelledAs(ts, r.value, name))
            && (r.None? <==> forall s :: !(HasType(ts, s, CONCEPT) && LabelledAs(ts, s, name)))
  {
    var k := FirstMatch(ts, name, 0);
    if k.None? {
      forall s | HasType(ts, s, CONCEPT)
        ensures !LabelledAs(ts, s, name)
      {
        var j :| 0 <= j < |ts| && ts[j] == Triple(s, RDF_TYPE, CONCEPT);
        assert !Matches(ts, ts[j], name);
      }
    }
  }

  /** Among several Concepts carrying the label, the one typed first in iteration order
      is returned. */
  lemma ConceptByLabelFirst(ts: seq<Triple>, name: string, j: nat)
    requires j < |ts| && Matches(ts, ts[j], name)
    ensures ConceptByLabel(ts, name).Some?
    ensures exists k :: 0 <= k <= j && Matches(ts, ts[k], name) && ConceptByLabel(ts, name) == Some(ts[k].s)
  {
    var k := FirstMatch(ts, name, 0);
    assert k.Some? && k.value <= j;
  }

  /** A node with no label, or an empty one, is never found: in particular the empty
      name finds nothing. */
  lemma EmptyLabelNeverFound(ts: seq<Triple>)
    ensures ConceptByLabel(ts, "").None?
  {
  }

  /** `find_concept`: scan the Concept-typing triples in order and return the first
      subject whose label matches. */
  method FindConcept(g: Graph, name: string) returns (r: Option<Term>)
    ensures r == ConceptByLabel(g.triples, name)
  {
    var ts := g.triples;
    var i := 0;
    while i < |ts|
      invariant 0 <= i <= |ts|
      invariant FirstMatch(ts, name, 0) == FirstMatch(ts, name, i)
    {
      if ts[i].p == RDF_TYPE && ts[i].o == CONCEPT {
        var lab := Value(ts, ts[i].s, RDFS_LABEL);
        if lab.Some? && Truthy(lab.value) && Str(lab.value) == name {
          return Some(ts[i].s);
        }
      }
      i := i + 1;
    }
    return None;
  }

  /** The edge `connect(parent, child)` adds, when both labels resolve to true terms. */
  function Link(ts: seq<Triple>, parent: string, child: string): Option<Triple> {
    var p := ConceptByLabel(ts, parent);
    var c := ConceptByLabel(ts, child);
    if p.Some? && Truthy(p.value) && c.Some? && Truthy(c.value)
    then Some(Triple(p.value, PREREQUISITE_OF, c.value))
    else None
  }

  /** The triples after `connect(parent, child)`. */
  function Connected(ts: seq<Triple>, parent: string, child: string): seq<Triple> {
    match Link(ts, parent, child)
    case None => ts
    case Some(t) => if t in ts then ts else ts + [t]
  }

  /** `connect`: resolve both labels; give up silently when either is missing;
      otherwise add the edge. */
  method Connect(g: Graph, parent: string, child: string)
    requires g.Valid()
    modifies g
    ensures g.Valid()
    ensures g.triples == Connected(old(g.triples), parent, child)
  {
    var parentUri := FindConcept(g, parent);
    var childUri := FindConcept(g, child);
    if !(parentUri.Some? && Truthy(parentUri.value)) {
      return;
    }
    if !(childUri.Some? && Truthy(childUri.value)) {
      return;
    }
    g.Add(Triple(parentUri.value, PREREQUISITE_OF, childUri.value));
  }

  /** When both labels resolve the graph gains exactly the edge from the parent's node
      to the child's node; otherwise it is unchanged. No triple is removed from the set. */
  lemma ConnectEffect(ts: seq<Triple>, parent: string, child: string)
    ensures var after := Connected(ts, parent, child);
            var p, c := ConceptByLabel(ts, parent), ConceptByLabel(ts, child);
            && after[..|ts|] == ts
            && (p.Some? && Truthy(p.value) && c.Some? && Truthy(c.value) ==>
                  TripleSet(after) == TripleSet(ts) + {Triple(p.value, PREREQUISITE_OF, c.value)})
            && (!(p.Some? && Truthy(p.value) && c.Some? && Truthy(c.value)) ==> after == ts)
  {
  }

  lemma ConnectedKeepsPrefix(ts: seq<Triple>, parent: string, child: string)
    ensures |ts| <= |Connected(ts, parent, child)| && Connected(ts, parent, child)[..|ts|] == ts
  {
  }

  /** Label lookups ignore every triple that is neither a typing nor a label. */
  lemma {:induction false} ValueIgnoresOthers(ts: seq<Triple>, t: Triple, s: Term, p: Term)
    requires t.p != p
    ensures Value(ts + [t], s, p) == Value(ts, s, p)
    decreases |ts|
  {
    if |ts| > 0 {
      assert (ts + [t])[1..] == ts[1..] + [t];
      ValueIgnoresOthers(ts[1..], t, s, p);
    }
  }

  lemma {:induction false} FirstMatchIgnoresLink(ts: seq<Triple>, t: Triple, name: string, i: nat)
    requires t.p == PREREQUISITE_OF && i <= |ts|
    ensures FirstMatch(ts + [t], name, i) == FirstMatch(ts, name, i)
    decreases |ts| - i
  {
    var ext := ts + [t];
    assert |PREREQUISITE_OF.iri| != |RDF_TYPE.iri| && |PREREQUISITE_OF.iri| != |RDFS_LABEL.iri|;
    if i < |ts| {
      assert ext[i] == ts[i];
      ValueIgnoresOthers(ts, t, ts[i].s, RDFS_LABEL);
      assert Matches(ext, ext[i], name) == Matches(ts, ts[i], name);
      FirstMatchIgnoresLink(ts, t, name, i + 1);
    } else {
      assert !Matches(ext, ext[i], name);
    }
  }

  /** Adding a `prerequisiteOf` edge changes no label lookup. */
  lemma ConceptByLabelIgnoresLink(ts: seq<Triple>, t: Triple, name: string)
    requires t.p == PREREQUISITE_OF
    ensures ConceptByLabel(ts + [t], name) == ConceptByLabel(ts, name)
  {
    FirstMatchIgnoresLink(ts, t, name, 0);
  }

  /** Connecting never changes what any label resolves to. */
  lemma ConnectKeepsLookups(ts: seq<Triple>, parent: string, child: string, name: string)
    ensures ConceptByLabel(Connected(ts, parent, child), name) == ConceptByLabel(ts, name)
  {
    var l := Link(ts, parent, child);
    if l.Some? && l.value !in ts {
      ConceptByLabelIgnoresLink(ts, l.value, name);
    }
  }

  /** The graph being a set, connecting the same labels twice is connecting them once. */
  lemma ConnectIdempotent(ts: seq<Triple>, parent: string, child: string)
    ensures Connected(Connected(ts, parent, child), parent, child) == Connected(ts, parent, child)
  {
    var once := Connected(ts, parent, child);
    ConnectKeepsLookups(ts, parent, child, parent);
    ConnectKeepsLookups(ts, parent, child, child);
    assert Link(once, parent, child) == Link(ts, parent, child);
  }

  /** The triples after connecting every pair of `links` in turn. */
  function ConnectedAll(ts: seq<Triple>, links: seq<(string, string)>): seq<Triple>
    decreases |links|
  {
    if |links| == 0 then ts
    else Connected(ConnectedAll(ts, links[..|links| - 1]), links[|links| - 1].0, links[|links| - 1].1)
  }

  /** Connecting a sequence of pairs changes no label lookup either. */
  lemma {:induction false} ConnectedAllKeepsLookups(ts: seq<Triple>, links: seq<(string, string)>, name: string)
    ensures ConceptByLabel(ConnectedAll(ts, links), name) == ConceptByLabel(ts, name)
    decreases |links|
  {
    if |links| > 0 {
      var prefix := links[..|links| - 1];
      ConnectedAllKeepsLookups(ts, prefix, name);
      ConnectKeepsLookups(ConnectedAll(ts, prefix), links[|links| - 1].0, links[|links| - 1].1, name);
    }
  }

  /** The edges of the pairs whose labels both resolve in `ts`. */
  function ResolvedLinks(ts: seq<Triple>, links: seq<(string, string)>): set<Triple> {
    set l | l in links && Link(ts, l.0, l.1).Some? :: Link(ts, l.0, l.1).value
  }

  lemma ResolvedLinksStep(ts: seq<Triple>, prefix: seq<(string, string)>, last: (string, string))
    ensures ResolvedLinks(ts, prefix + [last]) == ResolvedLinks(ts, prefix) +
              (if Link(ts, last.0, last.1).Some? then {Link(ts, last.0, last.1).value} else {})
  {
    var links := prefix + [last];
    assert forall l :: l in links <==> l in prefix || l == last;
  }

  /** `connect` never removes a triple, so after the whole run every loaded triple is
      still in the set. */
  lemma {:induction false} ConnectedAllExtends(ts: seq<Triple>, links: seq<(string, string)>)
    ensures |ts| <= |ConnectedAll(ts, links)| && ConnectedAll(ts, links)[..|ts|] == ts
    decreases |links|
  {
    if |links| > 0 {
      var prefix, last := links[..|links| - 1], links[|links| - 1];
      var mid := ConnectedAll(ts, prefix);
      var after := ConnectedAll(ts, links);
      ConnectedAllExtends(ts, prefix);
      ConnectedKeepsPrefix(mid, last.0, last.1);
      assert after[..|ts|] == after[..|mid|][..|ts|];
    }
  }

  /** After the whole run the graph holds exactly the loaded triples plus one edge for
      every pair whose labels both resolve in the loaded graph; so the order of the calls
      does not matter. */
  lemma {:induction false} ConnectedAllTriples(ts: seq<Triple>, links: seq<(string, string)>)
    ensures TripleSet(ConnectedAll(ts, links)) == TripleSet(ts) + ResolvedLinks(ts, links)
    decreases |links|
  {
    if |links| > 0 {
      var prefix, last := links[..|links| - 1], links[|links| - 1];
      assert links == prefix + [last];
      var mid := ConnectedAll(ts, prefix);
      ConnectedAllTriples(ts, prefix);
      ConnectEffect(mid, last.0, last.1);
      ConnectedAllKeepsLookups(ts, prefix, last.0);
      ConnectedAllKeepsLookups(ts, prefix, last.1);
      ResolvedLinksStep(ts, prefix, last);
    }
  }

  /** The body of the script: every pair in turn. */
  method ConnectAll(g: Graph, links: seq<(string, string)>)
    requires g.Valid()
    modifies g
    ensures g.Valid()
    ensures g.triples == ConnectedAll(old(g.triples), links)
  {
    var i := 0;
    while i < |links|
      invariant 0 <= i <= |links|
      invariant g.Valid()
      invariant g.triples == ConnectedAll(old(g.triples), links[..i])
    {
      assert links[..i + 1][..i] == links[..i];
      Connect(g, links[i].0, links[i].1);
      i := i + 1;
    }
    assert links[..i] == links;
  }

  /** The (parent, child) label pairs the script links, in the order it links them. */
  const CURRICULUM: seq<(string, string)> := [
      ("다항식의 덧셈과 뺄셈", "다항식의 곱셈"),
      ("다항식의 곱셈", "곱셈공식"),
      ("곱셈공식", "인수분해"),
      ("나머지정리", "인수분해"),
      ("복소수", "이차방정식"),
      ("인수분해", "이차방정식"),
      ("이차방정식", "이차방정식과 이차함수의 관계"),
      ("이차방정식", "여러 가지 방정식"),
      ("일차부등식", "이차부등식"),
      ("집합의 뜻과 표현", "집합의 연산"),
      ("집합의 연산", "명제"),
      ("집합의 연산", "함수"),
      ("함수", "합성함수"),
      ("함수", "역함수"),
      ("유리식", "유리함수"),
      ("무리식", "무리함수"),
      ("거듭제곱", "지수"),
      ("지수", "로그"),
      ("지수", "지수함수"),
      ("로그", "로그함수"),
      ("지수함수", "지수함수의 방부등식"),
      ("로그함수", "로그함수의 방부등식"),
      ("일반각", "삼각함수"),
      ("삼각함수", "삼각함수의 그래프"),
      ("삼각함수의 그래프", "삼각함수 방부등식"),
      ("삼각함수", "사인법칙"),
      ("삼각함수", "코사인법칙"),
      ("등차수열", "등차수열의 합"),
      ("등비수열", "등비수열의 합"),
      ("시그마", "여러가지 수열의 합"),
      ("등차수열", "수학적 귀납법"),
      ("함수", "함수의 극한"),
      ("함수의 극한", "함수의 연속"),
      ("함수의 연속", "미분계수"),
      ("미분계수", "도함수"),
      ("도함수", "접선의 방정식"),
      ("도함수", "함수의 극대와 극소"),
      ("도함수", "부정적분"),
      ("부정적분", "정적분"),
      ("정적분", "정적분의 활용"),
      ("경우의 수", "순열"),
      ("순열", "조합"),
      ("조합", "이항정리"),
      ("순열", "확률의 뜻"),
      ("조합", "확률의 뜻"),
      ("확률의 뜻", "조건부확률"),
      ("확률의 뜻", "확률분포"),
      ("확률분포", "정규분포"),
      ("정규분포", "통계적 추정"),
      ("수열", "수열의 극한"),
      ("수열의 극한", "급수"),
      ("지수함수", "지수함수와 로그함수의 미분"),
      ("로그함수", "지수함수와 로그함수의 미분"),
      ("삼각함수", "삼각함수의 미분"),
      ("도함수", "여러 가지 미분법"),
      ("여러 가지 미분법", "도함수의 활용"),
      ("정적분", "여러 가지 함수의 적분"),
      ("여러 가지 미분법", "치환적분법과 부분적분법"),
      ("이차방정식", "이차곡선"),
      ("이차곡선", "이차곡선의 접선"),
      ("벡터의 뜻", "벡터의 연산"),
      ("벡터의 연산", "벡터의 성분과 내적"),
      ("공간도형", "공간좌표"),
      ("공간좌표", "도형의 방정식")
    ]

  /** `connect_prerequisites`: load, link the whole curriculum, and hand back the
      triples to be saved. */
  method ConnectPrerequisites(loaded: seq<Triple>) returns (saved: seq<Triple>)
    requires Distinct(loaded)
    ensures saved == ConnectedAll(loaded, CURRICULUM)
    ensures Distinct(saved)
  {
    var g := new Graph(loaded);
    ConnectAll(g, CURRICULUM);
    saved := g.triples;
  }
}
