/** The deterministic part of the question-answering engine: the cleaning of the
    generative model's reply, the never-raising fallbacks of the two generators, the
    summary of retrieved rows, and the conversion of a SPARQL result into records.

    The generative model, `json.loads`, `json.dumps` and `graph.query` are parameters.
    A prompt is represented by the values it interpolates, so the SPARQL model is a
    function of (question, schema text) and the answer model of (question, data
    summary, explanation). */
module ReasoningEngine {
  import opened Common
  import opened Text
  import opened PyJson
  import Rdf

  /** The bare fence and the opening fence of a JSON code block. */
  const FENCE: string := "```"
  const JSON_FENCE: string := FENCE + "json"

  // ---------------------------------------------------------------------------
  // Cleaning of the model's reply

  /** `text.replace("```json", "").replace("```", "").strip()`: no fence survives and
      no whitespace remains at either end. */
  function Clean(text: string): (r: string)
    ensures !Contains(r, FENCE)
    ensures |r| > 0 ==> !IsWhitespace(r[0]) && !IsWhitespace(r[|r| - 1])
  {
    var unfenced := Replace(Replace(text, JSON_FENCE, ""), FENCE, "");
    StrippedHasNoFence(Replace(text, JSON_FENCE, ""));
    Strip(unfenced)
  }

  lemma {:induction false} StrippedHasNoFence(t: string)
    ensures !Contains(Strip(Replace(t, FENCE, "")), FENCE)
  {
    RemovingFencesLeavesNone(t);
    StripKeepsAbsent(Replace(t, FENCE, ""), FENCE);
  }

  /** Removing every fence from left to right cannot create a new fence: each run of
      backticks is left with fewer than three. */
  lemma {:induction false} RemovingFencesLeavesNone(t: string)
    ensures !Contains(Replace(t, FENCE, ""), FENCE)
    decreases |t|
  {
    var r := Replace(t, FENCE, "");
    if |t| < 3 {
      if Contains(r, FENCE) { ContainsLength(r, FENCE); }
    } else if t[..3] == FENCE {
      RemovingFencesLeavesNone(t[3..]);
      assert r == Replace(t[3..], FENCE, "");
    } else {
      var rest := Replace(t[1..], FENCE, "");
      RemovingFencesLeavesNone(t[1..]);
      assert r == [t[0]] + rest;
      assert r[1..] == rest;
    }
  }

  /** A reply with no fence and no surrounding whitespace is left as it is. */
  lemma CleanKeepsBareReply(text: string)
    requires !Contains(text, FENCE)
    requires |text| > 0 ==> !IsWhitespace(text[0]) && !IsWhitespace(text[|text| - 1])
    ensures Clean(text) == text
  {
    assert !Contains(text, JSON_FENCE) by {
      if Contains(text, JSON_FENCE) {
        ContainsPatternPrefix(text, FENCE, "json");
      }
    }
    assert Replace(text, JSON_FENCE, "") == text;
    assert Replace(text, FENCE, "") == text;
    assert Strip(text) == text;
  }

  /** Cleaning twice equals cleaning once. */
  lemma CleanIdempotent(text: string)
    ensures Clean(Clean(text)) == Clean(text)
  {
    CleanKeepsBareReply(Clean(text));
  }

  /** A payload wrapped in a JSON code block comes out unwrapped and trimmed. */
  lemma CleanUnwrapsCodeBlock(body: string)
    requires '`' !in body
    ensures Clean(JSON_FENCE + body + FENCE) == Strip(body)
  {
    var s := JSON_FENCE + body + FENCE;
    assert s[..|JSON_FENCE|] == JSON_FENCE;
    assert s[|JSON_FENCE|..] == body + FENCE;
    var once := Replace(s, JSON_FENCE, "");
    assert once == "" + Replace(body + FENCE, JSON_FENCE, "");
    ReplaceSkipsFree(body, FENCE, JSON_FENCE, "");
    assert Replace(FENCE, JSON_FENCE, "") == FENCE;
    assert once == body + FENCE;
    ReplaceSkipsFree(body, FENCE, FENCE, "");
    assert Replace(FENCE, FENCE, "") == "" by {
      assert FENCE[..3] == FENCE && FENCE[3..] == "";
      assert Replace(FENCE, FENCE, "") == "" + Replace("", FENCE, "");
    }
    assert Replace(once, FENCE, "") == body + "" == body;
  }

  // ---------------------------------------------------------------------------
  // The two generators

  /** The body of both generators' `try`: read the reply, clean it, parse it. A value is
      produced only when the reply arrived and its cleaned text parsed. */
  function ParseReply(reply: Result<string, string>, parse: string -> Result<Json, string>): (r: Result<Json, string>)
    ensures r.Success? ==> reply.Success? && parse(Clean(reply.value)) == r
    ensures reply.Failure? ==> r == Failure(reply.error)
    ensures reply.Success? && parse(Clean(reply.value)).Failure? ==> r == parse(Clean(reply.value))
  {
    match reply
    case Failure(e) => Failure(e)
    case Success(text) => parse(Clean(text))
  }

  /** What `generate_sparql` returns when anything in its `try` raises. */
  function SparqlFallback(reason: string): (r: Json)
    ensures r.JObj? && r.fields.Keys == {"query", "explanation"}
    ensures r.fields["query"] == JStr("") && !Truthy(r.fields["query"])
    ensures r.fields["explanation"].JStr? && StartsWith(r.fields["explanation"].s, "Error: ")
  {
    JObj(map["query" := JStr(""), "explanation" := JStr("Error: " + reason)])
  }

  /** `generate_sparql`: never raises. The parsed reply is returned as it is, without any
      check of its fields; a failed call or an unparsable reply becomes the fallback
      carrying the reason. */
  function GenerateSparql(question: string, schema: string,
                          model: (string, string) -> Result<string, string>,
                          parse: string -> Result<Json, string>): (r: Json)
    ensures model(question, schema).Failure? ==> r == SparqlFallback(model(question, schema).error)
    ensures model(question, schema).Success? ==>
              var parsed := parse(Clean(model(question, schema).value));
              r == if parsed.Success? then parsed.value else SparqlFallback(parsed.error)
  {
    match ParseReply(model(question, schema), parse)
    case Success(result) => result
    case Failure(e) => SparqlFallback(e)
  }

  /** The prefix of the answer `generate_answer` gives when anything in its `try` raises. */
  const ANSWER_ERROR: string := "답변 생성 중 오류가 발생했습니다."

  /** What `generate_answer` returns when anything in its `try` raises. */
  function AnswerFallback(reason: string): (r: Json)
    ensures r.JObj? && r.fields.Keys == {"answer", "evidence"}
    ensures r.fields["evidence"] == JArr([])
    ensures r.fields["answer"].JStr? && StartsWith(r.fields["answer"].s, ANSWER_ERROR)
  {
    JObj(map["answer" := JStr(ANSWER_ERROR + " (" + reason + ")"), "evidence" := JArr([])])
  }

  const NO_DATA: string := "No data found."

  /** The retrieved-data part of the answer prompt: the fixed sentence when nothing was
      retrieved, otherwise the JSON dump of the records. */
  function DataSummary(raw: seq<Record>, dumps: seq<Record> -> string): (r: string)
    ensures |raw| == 0 ==> r == NO_DATA
    ensures |raw| > 0 ==> r == dumps(raw)
  {
    if |raw| > 0 then dumps(raw) else NO_DATA
  }

  /** `json.dumps` of a non-empty list opens with '[', so the fixed sentence appears
      exactly when nothing was retrieved. */
  lemma DataSummaryNoData(raw: seq<Record>, dumps: seq<Record> -> string)
    requires forall rs :: |rs| > 0 ==> |dumps(rs)| > 0 && dumps(rs)[0] == '['
    ensures DataSummary(raw, dumps) == NO_DATA <==> |raw| == 0
  {
    if |raw| > 0 {
      assert DataSummary(raw, dumps)[0] == '[' != NO_DATA[0];
    }
  }

  /** `generate_answer`: never raises. The model sees the question, the data summary
      and the explanation; its parsed reply is returned as it is, and a failure becomes
      an error answer with empty evidence. */
  function GenerateAnswer(question: string, raw: seq<Record>, explanation: Json,
                          model: (string, string, Json) -> Result<string, string>,
                          parse: string -> Result<Json, string>,
                          dumps: seq<Record> -> string): (r: Json)
    ensures var reply := model(question, DataSummary(raw, dumps), explanation);
            && (reply.Failure? ==> r == AnswerFallback(reply.error))
            && (reply.Success? ==>
                  var parsed := parse(Clean(reply.value));
                  r == if parsed.Success? then parsed.value else AnswerFallback(parsed.error))
  {
    match ParseReply(model(question, DataSummary(raw, dumps), explanation), parse)
    case Success(result) => result
    case Failure(e) => AnswerFallback(e)
  }

  // ---------------------------------------------------------------------------
  // Execution of the query

  /** One solution of a SELECT query: the variables it binds and their values. */
  datatype Row = Row(bindings: map<string, Rdf.Term>)

  /** What `graph.query` returns. A SELECT result has its variables, the rows its
      iteration yields and, when the iteration raises after those rows, the reason. Any
      other kind of result has no variables. */
  datatype QueryResult =
    | Select(vars: seq<string>, rows: seq<Row>, failure: Option<string>)
    | NonSelect

  /** A record, as the ordered entries of a Python dict from variable name to the value's
      string form or None. */
  type Record = seq<(string, Option<string>)>

  /** `str(val) if val is not None else None` for `val = row[var]`. */
  function Display(row: Row, v: string): Option<string> {
    if v in row.bindings then Some(Rdf.Str(row.bindings[v])) else None
  }

  function Keys(item: Record): (r: seq<string>)
    ensures |r| == |item|
    ensures forall i :: 0 <= i < |item| ==> r[i] == item[i].0
  {
    if |item| == 0 then [] else [item[0].0] + Keys(item[1..])
  }

  /** `item[k]`, or None when `k` is not a key. */
  function Lookup(item: Record, k: string): (r: Option<Option<string>>)
    ensures r.None? <==> k !in Keys(item)
  {
    if |item| == 0 then None
    else if item[0].0 == k then Some(item[0].1)
    else Lookup(item[1..], k)
  }

  /** `item[k] = v` on a dict. */
  function Put(item: Record, k: string, v: Option<string>): Record {
    if |item| == 0 then [(k, v)]
    else if item[0].0 == k then [(k, v)] + item[1..]
    else [item[0]] + Put(item[1..], k, v)
  }

  /** Storing under a key that is already present keeps the key's place; a new key goes
      to the end. */
  lemma {:induction false} PutKeys(item: Record, k: string, v: Option<string>)
    ensures Keys(Put(item, k, v)) == if k in Keys(item) then Keys(item) else Keys(item) + [k]
    decreases |item|
  {
    if |item| > 0 && item[0].0 != k {
      PutKeys(item[1..], k, v);
      assert Keys(item) == [item[0].0] + Keys(item[1..]);
      assert Keys(Put(item, k, v)) == [item[0].0] + Keys(Put(item[1..], k, v));
    }
  }

  /** After storing, the key maps to the new value and every other key to what it mapped
      to before. */
  lemma {:induction false} PutLookups(item: Record, k: string, v: Option<string>)
    ensures Lookup(Put(item, k, v), k) == Some(v)
    ensures forall k' :: k' != k ==> Lookup(Put(item, k, v), k') == Lookup(item, k')
    decreases |item|
  {
    if |item| > 0 && item[0].0 != k {
      PutLookups(item[1..], k, v);
    }
  }

  /** The record the inner loop builds for one row: each variable in turn is stored
      with its displayed value. */
  function ToRecord(vars: seq<string>, row: Row): Record
    decreases |vars|
  {
    if |vars| == 0 then []
    else Put(ToRecord(vars[..|vars| - 1], row), vars[|vars| - 1], Display(row, vars[|vars| - 1]))
  }

  lemma RecordStep(vars: seq<string>, j: nat, row: Row)
    requires j < |vars|
    ensures ToRecord(vars[..j + 1], row) == Put(ToRecord(vars[..j], row), vars[j], Display(row, vars[j]))
  {
    assert vars[..j + 1][..j] == vars[..j];
  }

  /** A record's keys are exactly the variables, and each variable maps to the string
      form of its binding, or None when the row leaves it unbound. */
  lemma {:induction false} RecordHoldsEveryVariable(vars: seq<string>, row: Row)
    ensures forall k :: k in Keys(ToRecord(vars, row)) <==> k in vars
    ensures forall v :: v in vars ==> Lookup(ToRecord(vars, row), v) == Some(Display(row, v))
    decreases |vars|
  {
    if |vars| > 0 {
      var init, last := vars[..|vars| - 1], vars[|vars| - 1];
      assert vars == init + [last];
      RecordHoldsEveryVariable(init, row);
      PutKeys(ToRecord(init, row), last, Display(row, last));
      PutLookups(ToRecord(init, row), last, Display(row, last));
    }
  }

  /** With distinct variables, as SPARQL projections have, the record's keys are the
      variables in their order. */
  lemma {:induction false} RecordKeysInOrder(vars: seq<string>, row: Row)
    requires Distinct(vars)
    ensures Keys(ToRecord(vars, row)) == vars
    decreases |vars|
  {
    if |vars| > 0 {
      var init, last := vars[..|vars| - 1], vars[|vars| - 1];
      assert vars == init + [last];
      assert Distinct(init);
      RecordKeysInOrder(init, row);
      RecordHoldsEveryVariable(init, row);
      PutKeys(ToRecord(init, row), last, Display(row, last));
    }
  }

  /** The records of the rows of a SELECT result, one per row, in row order. */
  function RowRecords(vars: seq<string>, rows: seq<Row>): seq<Record>
    decreases |rows|
  {
    if |rows| == 0 then []
    else RowRecords(vars, rows[..|rows| - 1]) + [ToRecord(vars, rows[|rows| - 1])]
  }

  /** What `execute_sparql` returns for the outcome of `graph.query`. */
  function QueryRecords(q: Result<QueryResult, string>): seq<Record> {
    match q
    case Failure(_) => []
    case Success(NonSelect) => []
    case Success(Select(vars, rows, failure)) =>
      if failure.Some? then [] else RowRecords(vars, rows)
  }

  /** When querying and iterating succeed there is one record per row, in row order,
      holding that row's bindings. */
  lemma {:induction false} RecordPerRow(vars: seq<string>, rows: seq<Row>)
    ensures |RowRecords(vars, rows)| == |rows|
    ensures forall i :: 0 <= i < |rows| ==> RowRecords(vars, rows)[i] == ToRecord(vars, rows[i])
    decreases |rows|
  {
    if |rows| > 0 {
      RecordPerRow(vars, rows[..|rows| - 1]);
    }
  }

  /** Querying either raises, yielding no records at all, or succeeds with one record per
      row whose keys are the variables and whose values are the row's bindings. */
  lemma ExecutionOutcome(q: Result<QueryResult, string>)
    ensures q.Failure? || q.value.NonSelect? || q.value.failure.Some? ==> QueryRecords(q) == []
    ensures q.Success? && q.value.Select? && q.value.failure.None? ==>
              var r := QueryRecords(q);
              && |r| == |q.value.rows|
              && (forall i, k :: 0 <= i < |r| ==> (k in Keys(r[i]) <==> k in q.value.vars))
              && (forall i, v :: 0 <= i < |r| && v in q.value.vars ==>
                    Lookup(r[i], v) == Some(Display(q.value.rows[i], v)))
  {
    if q.Success? && q.value.Select? && q.value.failure.None? {
      RecordPerRow(q.value.vars, q.value.rows);
      forall i | 0 <= i < |q.value.rows| {
        RecordHoldsEveryVariable(q.value.vars, q.value.rows[i]);
      }
    }
  }

  /** `execute_sparql`: runs the query and copies each row into a fresh record. A result
      without variables (ASK, CONSTRUCT) raises TypeError at its first row, and every
      exception discards whatever was built, so no partial list is ever returned. */
  method ExecuteSparql(query: string, run: string -> Result<QueryResult, string>) returns (data: seq<Record>)
    ensures data == QueryRecords(run(query))
  {
    var results := run(query);
    if results.Failure? || results.value.NonSelect? {
      return [];
    }
    var vars, rows := results.value.vars, results.value.rows;
    data := [];
    var i := 0;
    while i < |rows|
      invariant 0 <= i <= |rows|
      invariant data == RowRecords(vars, rows[..i])
    {
      var row := rows[i];
      var item: Record := [];
      var j := 0;
      while j < |vars|
        invariant 0 <= j <= |vars|
        invariant item == ToRecord(vars[..j], row)
      {
        RecordStep(vars, j, row);
        item := Put(item, vars[j], Display(row, vars[j]));
        j := j + 1;
      }
      assert vars[..j] == vars;
      assert rows[..i + 1][..i] == rows[..i];
      data := data + [item];
      i := i + 1;
    }
    assert rows[..i] == rows;
    if results.value.failure.Some? {
      data := [];
    }
  }
}
