/** The curriculum knowledge graph as the scripts see it through rdflib: a set of
    (subject, predicate, object) triples, iterated in a fixed order. */
module Rdf {
  import opened Common

  /** An RDF term: a URI reference, a plain literal (its lexical form) or a blank node. */
  datatype Term = Uri(iri: string) | Lit(lexical: string) | Blank(id: string)

  datatype Triple = Triple(s: Term, p: Term, o: Term)

  /** The domain namespace used throughout the curriculum graph. */
  const NS: string := "http://snu.ac.kr/math/"

  const RDF_TYPE: Term := Uri("http://www.w3.org/1999/02/22-rdf-syntax-ns#type")
  const RDFS_LABEL: Term := Uri("http://www.w3.org/2000/01/rdf-schema#label")
  const RDFS_COMMENT: Term := Uri("http://www.w3.org/2000/01/rdf-schema#comment")

  /** `str(t)` */
  function Str(t: Term): string {
    match t
    case Uri(iri) => iri
    case Lit(lexical) => lexical
    case Blank(id) => id
  }

  /** `bool(t)`: a term is false exactly when its string form is empty. */
  predicate Truthy(t: Term) {
    |Str(t)| > 0
  }

  /** The triples of the graph, without their iteration order. */
  function TripleSet(ts: seq<Triple>): set<Triple> {
    set t | t in ts
  }

  /** `g.value(s, p)`: the object of the first triple `(s, p, _)` in iteration order,
      or None when the graph has no such triple. */
  function Value(ts: seq<Triple>, s: Term, p: Term): (r: Option<Term>)
    ensures r.Some? ==> Triple(s, p, r.value) in ts
    ensures r.None? ==> forall o :: Triple(s, p, o) !in ts
    decreases |ts|
  {
    if |ts| == 0 then None
    else if ts[0].s == s && ts[0].p == p then Some(ts[0].o)
    else Value(ts[1..], s, p)
  }

  /** `cls in g.objects(s, RDF.type)` */
  predicate HasType(ts: seq<Triple>, s: Term, cls: Term) {
    Triple(s, RDF_TYPE, cls) in ts
  }

  /** `g.subjects(unique=True)`: every subject once, in order of first occurrence. */
  function Subjects(ts: seq<Triple>): (r: seq<Term>)
    ensures forall x :: x in r <==> exists t :: t in ts && t.s == x
    ensures Distinct(r)
    decreases |ts|
  {
    if |ts| == 0 then []
    else
      var prev := Subjects(ts[..|ts| - 1]);
      assert forall t :: t in ts <==> t in ts[..|ts| - 1] || t == ts[|ts| - 1];
      if ts[|ts| - 1].s in prev then prev else prev + [ts[|ts| - 1].s]
  }

  /** The graph object both scripts work on. rdflib's graph is a set: none of its
      triples occurs twice, and `Add` stands for `g.add`, which does nothing when the
      triple is already present. The sequence fixes one iteration order, in which an
      added triple comes last; rdflib promises no order. */
  class Graph {
    var triples: seq<Triple>

    ghost predicate Valid()
      reads this
    {
      Distinct(triples)
    }

    /** The graph as `g.parse` leaves it. */
    constructor (loaded: seq<Triple>)
      requires Distinct(loaded)
      ensures Valid() && triples == loaded
    {
      triples := loaded;
    }

    method Add(t: Triple)
      requires Valid()
      modifies this
      ensures Valid()
      ensures triples == if t in old(triples) then old(triples) else old(triples) + [t]
      ensures TripleSet(triples) == TripleSet(old(triples)) + {t}
    {
      if t !in triples {
        triples := triples + [t];
      }
    }
  }
}
