/** One question handled by the chat front end: synthesise a query, run it only when the
    synthesised object carries a non-empty query, answer, and read the answer's two
    fields with their defaults. A `Failure` is an exception the front end does not
    catch. */
module ChatTurn {
  import opened Common
  import opened PyJson
  import RE = ReasoningEngine

  const NO_ANSWER: string := "No answer generated."

  /** Everything one turn computes. */
  datatype Turn = Turn(sparql: Json, data: seq<RE.Record>, explanation: Json, final: Json, answer: Json, evidence: Json)

  /** `sparql_res and "query" in sparql_res and sparql_res["query"]`, evaluated left to
      right with short circuit: the query runs only for a dict whose "query" entry is
      truthy. A truthy scalar makes `in` raise; a string or list that contains "query"
      makes the indexing raise. */
  function Gate(res: Json): (r: Result<bool, string>)
    ensures r == Success(true) ==> res.JObj? && "query" in res.fields && Truthy(res.fields["query"])
    ensures res.JObj? ==> r == Success("query" in res.fields && Truthy(res.fields["query"]))
    ensures !Truthy(res) ==> r == Success(false)
  {
    if !Truthy(res) then Success(false)
    else
      match In("query", res)
      case Failure(e) => Failure(e)
      case Success(found) =>
        if !found then Success(false)
        else
          match Index(res, "query")
          case Failure(e) => Failure(e)
          case Success(q) => Success(Truthy(q))
  }

  /** The records retrieved for a query value that passed the gate. Only a string is a
      query text; `graph.query` raises on anything else, and `execute_sparql` turns that
      into no records. */
  function Retrieved(query: Json, run: string -> Result<RE.QueryResult, string>): seq<RE.Record> {
    if query.JStr? then RE.QueryRecords(run(query.s)) else []
  }

  /** The whole turn as a value: the front end's steps in order, each exception ending
      it. */
  function TurnOf(question: string, schema: string,
                  sparqlModel: (string, string) -> Result<string, string>,
                  answerModel: (string, string, Json) -> Result<string, string>,
                  parse: string -> Result<Json, string>,
                  dumps: seq<RE.Record> -> string,
                  run: string -> Result<RE.QueryResult, string>): Result<Turn, string>
  {
    var sparql := RE.GenerateSparql(question, schema, sparqlModel, parse);
    match Gate(sparql)
    case Failure(e) => Failure(e)
    case Success(runs) =>
      var data := if runs then Retrieved(sparql.fields["query"], run) else [];
      match Get(sparql, "explanation", JStr(""))
      case Failure(e) => Failure(e)
      case Success(explanation) =>
        var final := RE.GenerateAnswer(question, data, explanation, answerModel, parse, dumps);
        match Get(final, "answer", JStr(NO_ANSWER))
        case Failure(e) => Failure(e)
        case Success(answer) =>
          match Get(final, "evidence", JArr([]))
          case Failure(e) => Failure(e)
          case Success(evidence) => Success(Turn(sparql, data, explanation, final, answer, evidence))
  }

  /** The front end's handling of one question, running the query through
      `execute_sparql`. */
  method HandleQuestion(question: string, schema: string,
                        sparqlModel: (string, string) -> Result<string, string>,
                        answerModel: (string, string, Json) -> Result<string, string>,
                        parse: string -> Result<Json, string>,
                        dumps: seq<RE.Record> -> string,
                        run: string -> Result<RE.QueryResult, string>) returns (out: Result<Turn, string>)
    ensures out == TurnOf(question, schema, sparqlModel, answerModel, parse, dumps, run)
  {
    var sparql := RE.GenerateSparql(question, schema, sparqlModel, parse);
    var runs := Gate(sparql);
    if runs.Failure? {
      return Failure(runs.error);
    }
    var data: seq<RE.Record> := [];
    if runs.value {
      var query := sparql.fields["query"];
      if query.JStr? {
        data := RE.ExecuteSparql(query.s, run);
      }
    }
    var explanation := Get(sparql, "explanation", JStr(""));
    if explanation.Failure? {
      return Failure(explanation.error);
    }
    var final := RE.GenerateAnswer(question, data, explanation.value, answerModel, parse, dumps);
    var answer := Get(final, "answer", JStr(NO_ANSWER));
    if answer.Failure? {
      return Failure(answer.error);
    }
    // `final` has `.get`, so the second lookup cannot raise.
    var evidence := Get(final, "evidence", JArr([])).value;
    out := Success(Turn(sparql, data, explanation.value, final, answer.value, evidence));
  }

  /** Records are only ever retrieved for a synthesised dict whose "query" is a
      non-empty string. */
  lemma DataNeedsQueryText(question: string, schema: string,
                           sparqlModel: (string, string) -> Result<string, string>,
                           answerModel: (string, string, Json) -> Result<string, string>,
                           parse: string -> Result<Json, string>,
                           dumps: seq<RE.Record> -> string,
                           run: string -> Result<RE.QueryResult, string>)
    ensures var out := TurnOf(question, schema, sparqlModel, answerModel, parse, dumps, run);
            out.Success? && |out.value.data| > 0 ==>
              && out.value.sparql.JObj?
              && "query" in out.value.sparql.fields
              && out.value.sparql.fields["query"].JStr?
              && |out.value.sparql.fields["query"].s| > 0
  {
  }

  /** When the query model's reply fails to arrive or fails to parse, no query runs and
      the answer model is told the error as the explanation. */
  lemma FailedSynthesisSkipsQuery(question: string, schema: string,
                                  sparqlModel: (string, string) -> Result<string, string>,
                                  answerModel: (string, string, Json) -> Result<string, string>,
                                  parse: string -> Result<Json, string>,
                                  dumps: seq<RE.Record> -> string,
                                  run: string -> Result<RE.QueryResult, string>)
    requires RE.ParseReply(sparqlModel(question, schema), parse).Failure?
    ensures var out := TurnOf(question, schema, sparqlModel, answerModel, parse, dumps, run);
            var reason := RE.ParseReply(sparqlModel(question, schema), parse).error;
            && (out.Success? || !RE.GenerateAnswer(question, [], JStr("Error: " + reason), answerModel, parse, dumps).JObj?)
            && (out.Success? ==>
                  && out.value.data == []
                  && out.value.final == RE.GenerateAnswer(question, [], JStr("Error: " + reason), answerModel, parse, dumps))
  {
    var reason := RE.ParseReply(sparqlModel(question, schema), parse).error;
    var sparql := RE.GenerateSparql(question, schema, sparqlModel, parse);
    assert sparql == RE.SparqlFallback(reason);
    assert Gate(sparql) == Success(false);
    assert Get(sparql, "explanation", JStr("")) == Success(JStr("Error: " + reason));
  }

  /** When the answer model's reply for this turn fails to arrive or fails to parse, the
      turn shows the error answer with no evidence. */
  lemma FailedAnswerShowsError(question: string, schema: string,
                               sparqlModel: (string, string) -> Result<string, string>,
                               answerModel: (string, string, Json) -> Result<string, string>,
                               parse: string -> Result<Json, string>,
                               dumps: seq<RE.Record> -> string,
                               run: string -> Result<RE.QueryResult, string>)
    ensures var out := TurnOf(question, schema, sparqlModel, answerModel, parse, dumps, run);
            out.Success? ==>
              var reply := answerModel(question, RE.DataSummary(out.value.data, dumps), out.value.explanation);
              RE.ParseReply(reply, parse).Failure? ==>
                && out.value.evidence == JArr([])
                && out.value.answer.JStr?
                && Text.StartsWith(out.value.answer.s, RE.ANSWER_ERROR)
  {
  }

  /** When every reply that parses parses to a dict, no step of the turn raises. */
  lemma ObjectRepliesNeverCrash(question: string, schema: string,
                                sparqlModel: (string, string) -> Result<string, string>,
                                answerModel: (string, string, Json) -> Result<string, string>,
                                parse: string -> Result<Json, string>,
                                dumps: seq<RE.Record> -> string,
                                run: string -> Result<RE.QueryResult, string>)
    requires forall t :: parse(t).Success? ==> parse(t).value.JObj?
    ensures TurnOf(question, schema, sparqlModel, answerModel, parse, dumps, run).Success?
  {
  }

  /** The turn shows the answer's own "answer" and "evidence" when present, and the
      defaults when missing. */
  lemma ShownFields(question: string, schema: string,
                             sparqlModel: (string, string) -> Result<string, string>,
                             answerModel: (string, string, Json) -> Result<string, string>,
                             parse: string -> Result<Json, string>,
                             dumps: seq<RE.Record> -> string,
                             run: string -> Result<RE.QueryResult, string>)
    ensures var out := TurnOf(question, schema, sparqlModel, answerModel, parse, dumps, run);
            && (out.Success? && "answer" in out.value.final.fields ==> out.value.answer == out.value.final.fields["answer"])
            && (out.Success? && "evidence" in out.value.final.fields ==> out.value.evidence == out.value.final.fields["evidence"])
            && (out.Success? && "answer" !in out.value.final.fields ==> out.value.answer == JStr(NO_ANSWER))
            && (out.Success? && "evidence" !in out.value.final.fields ==> out.value.evidence == JArr([]))
            && (out.Success? ==> out.value.final.JObj?)
  {
  }
}
