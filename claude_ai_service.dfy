/** The reply side of the analysis service: turning the model's untrusted
    reply text into an analysis record with recounted severities
    (`parseClaudeResponse`), and the error-propagating wrapper around the
    outbound call (`analyzeCode`), whose transport is an oracle here. */
module ClaudeAIService {
  import opened Wrappers
  import opened PhpText
  import opened Json

  /** A PHP throwable. `Exception`s are caught by `catch (\Exception $e)`;
      an `Error` (such as the `TypeError` of a built-in handed an array)
      passes through such a handler. */
  datatype Failure = Exception(message: string) | Error(message: string)

  const JsonFence := "```json"
  const Fence := "```"

  const ParseFailedMessage := "Failed to parse AI response"
  const InvalidStructureMessage := "Invalid response structure from Claude"
  const ApiFailedMessage := "Failed to analyze code with Claude API"
  /** The `TypeError` raised by `strtolower` when the severity is an array. */
  const LowerTypeErrorMessage := "strtolower(): Argument #1 ($string) must be of type string, array given"

  /** The record `parseClaudeResponse` returns. */
  datatype Analysis = Analysis(
    summary: Json,
    issues: seq<Json>,
    totalIssues: nat,
    highSeverity: nat,
    mediumSeverity: nat,
    lowSeverity: nat)

  // ---------------------------------------------------------------------
  // Fence stripping

  /** `s` begins with the opening fence ```` ```json ````. */
  predicate OpensWithJsonFence(s: string) {
    && |s| >= |JsonFence|
    && s[0] == '`' && s[1] == '`' && s[2] == '`'
    && s[3] == 'j' && s[4] == 's' && s[5] == 'o' && s[6] == 'n'
  }

  /** `preg_replace('/```json\s*\/', '', $s)`: every occurrence of the
      opening fence, with the whitespace after it, is deleted; the scan
      resumes after each deletion and does not look at the joined text. */
  function StripJsonFences(s: string): (r: string)
    ensures |r| <= |s|
    decreases |s|
  {
    if OpensWithJsonFence(s) then
      StripJsonFences(DropPcreSpaces(s[|JsonFence|..]))
    else if s == [] then []
    else [s[0]] + StripJsonFences(s[1..])
  }

  /** `preg_replace('/```\s*$/', '', $s)`: a closing fence followed by
      nothing but whitespace is deleted together with that whitespace.
      Since a fence is not whitespace, such a fence is the one just before
      the trailing whitespace run, so there is at most one. */
  function StripClosingFence(s: string): (r: string)
    ensures var u := DropTrailingPcreSpaces(s);
      if |u| >= |Fence| && u[|u| - |Fence|..] == Fence then s == r + Fence + s[|u|..]
      else r == s
  {
    var u := DropTrailingPcreSpaces(s);
    if |u| >= |Fence| && u[|u| - |Fence|..] == Fence then u[..|u| - |Fence|] else s
  }

  /** The text handed to `json_decode`. */
  function Clean(content: string): string {
    Trim(StripClosingFence(StripJsonFences(content)))
  }

  /** A character at which no fence match can start or continue across a
      join: neither whitespace nor a letter of the opening fence. */
  predicate FenceSafe(c: char) {
    !IsPcreSpace(c) && c != '`' && c != 'j' && c != 's' && c != 'o' && c != 'n'
  }

  lemma {:induction false} StripJsonFencesWithoutJ(x: string)
    requires 'j' !in x
    ensures StripJsonFences(x) == x
    decreases |x|
  {
    if x != [] {
      assert !OpensWithJsonFence(x) by {
        if |x| > 4 { assert x[4] in x; }
      }
      StripJsonFencesWithoutJ(x[1..]);
    }
  }

  /** No opening fence can start in `x` and run on into `y` when the
      join is fence-safe on either side. */
  lemma NoFenceAcrossJoin(x: string, y: string)
    requires x != [] && y != []
    requires FenceSafe(x[|x| - 1]) || FenceSafe(y[0])
    requires !OpensWithJsonFence(x)
    ensures !OpensWithJsonFence(x + y)
  {
    if OpensWithJsonFence(x + y) {
    }
  }

  /** Fence stripping distributes over a join at which no match can
      straddle. */
  lemma {:induction false} StripJsonFencesAppend(x: string, y: string)
    requires x == [] || y == [] || FenceSafe(x[|x| - 1]) || FenceSafe(y[0])
    ensures StripJsonFences(x + y) == StripJsonFences(x) + StripJsonFences(y)
    decreases |x|
  {
    var n := |JsonFence|;
    if x == [] {
      assert x + y == y;
    } else if y == [] {
      assert x + y == x;
    } else if OpensWithJsonFence(x) && AllPcreSpace(x[n..]) {
      StripJsonFencesAppendAtBareFence(x, y);
    } else if OpensWithJsonFence(x) {
      StripJsonFencesAppendAtFence(x, y);
    } else {
      StripJsonFencesAppendPlain(x, y);
    }
  }

  /** The case of `StripJsonFencesAppend` where no fence opens `x`: its
      first character is kept and the rest is joined to `y`. */
  lemma {:induction false} StripJsonFencesAppendPlain(x: string, y: string)
    requires x != [] && y != [] && (FenceSafe(x[|x| - 1]) || FenceSafe(y[0]))
    requires !OpensWithJsonFence(x)
    ensures StripJsonFences(x + y) == StripJsonFences(x) + StripJsonFences(y)
    decreases |x|, 0
  {
    KeepsFirstAcrossJoin(x, y);
    StripJsonFencesAppend(x[1..], y);
    AppendAssociates([x[0]], StripJsonFences(x[1..]), StripJsonFences(y));
  }

  /** Where no fence opens `x`, the first character of `x` is kept both
      alone and joined to `y`, and the rest still joins safely. */
  lemma KeepsFirstAcrossJoin(x: string, y: string)
    requires x != [] && y != [] && (FenceSafe(x[|x| - 1]) || FenceSafe(y[0]))
    requires !OpensWithJsonFence(x)
    ensures StripJsonFences(x) == [x[0]] + StripJsonFences(x[1..])
    ensures StripJsonFences(x + y) == [x[0]] + StripJsonFences(x[1..] + y)
    ensures x[1..] == [] || FenceSafe(x[1..][|x[1..]| - 1]) || FenceSafe(y[0])
  {
    NoFenceAcrossJoin(x, y);
    DropFirstOfJoin(x, y);
  }

  lemma DropFirstOfJoin<T>(x: seq<T>, y: seq<T>)
    requires x != []
    ensures (x + y)[0] == x[0] && (x + y)[1..] == x[1..] + y
    ensures x[1..] == [] || x[1..][|x[1..]| - 1] == x[|x| - 1]
  {
  }

  lemma AppendAssociates<T>(a: seq<T>, b: seq<T>, c: seq<T>)
    ensures a + (b + c) == (a + b) + c
  {
  }

  /** The case of `StripJsonFencesAppend` where `x` is a fence followed
      by whitespace only. */
  lemma StripJsonFencesAppendAtBareFence(x: string, y: string)
    requires x != [] && y != [] && (FenceSafe(x[|x| - 1]) || FenceSafe(y[0]))
    requires OpensWithJsonFence(x) && AllPcreSpace(x[|JsonFence|..])
    ensures StripJsonFences(x + y) == StripJsonFences(x) + StripJsonFences(y)
  {
    FenceOpensJoin(x, y);
    FenceThenSpacesEnd(x, y);
    assert StripJsonFences([]) == [];
  }

  /** The case of `StripJsonFencesAppend` where `x` opens with a fence
      whose body is not all whitespace. */
  lemma {:induction false} StripJsonFencesAppendAtFence(x: string, y: string)
    requires x != [] && y != [] && (FenceSafe(x[|x| - 1]) || FenceSafe(y[0]))
    requires OpensWithJsonFence(x) && !AllPcreSpace(x[|JsonFence|..])
    ensures StripJsonFences(x + y) == StripJsonFences(x) + StripJsonFences(y)
    decreases |x|, 0
  {
    var x' := x[|JsonFence|..];
    var d := DropPcreSpaces(x');
    FenceOpensJoin(x, y);
    DropSpacesAppend(x', y);
    DropSpacesKeepsLast(x');
    assert x'[|x'| - 1] == x[|x| - 1];
    StripJsonFencesAppend(d, y);
  }

  /** A fence that opens `x` opens `x + y` too, and its body runs on into `y`. */
  lemma FenceOpensJoin(x: string, y: string)
    requires OpensWithJsonFence(x)
    ensures StripJsonFences(x) == StripJsonFences(DropPcreSpaces(x[|JsonFence|..]))
    ensures StripJsonFences(x + y) == StripJsonFences(DropPcreSpaces(x[|JsonFence|..] + y))
  {
    assert OpensWithJsonFence(x + y);
    assert (x + y)[|JsonFence|..] == x[|JsonFence|..] + y;
  }

  /** When a fence and its whitespace end `x`, the join is safe only on
      `y`'s side, and the whitespace run stops where `y` begins. */
  lemma FenceThenSpacesEnd(x: string, y: string)
    requires x != [] && y != [] && (FenceSafe(x[|x| - 1]) || FenceSafe(y[0]))
    requires OpensWithJsonFence(x)
    requires AllPcreSpace(x[|JsonFence|..])
    ensures DropPcreSpaces(x[|JsonFence|..] + y) == y
    ensures DropPcreSpaces(x[|JsonFence|..]) == []
  {
    var x' := x[|JsonFence|..];
    if x' == [] {
      assert x[|x| - 1] == 'n';
    } else {
      assert IsPcreSpace(x'[|x'| - 1]);
    }
    SpaceFreePrefixSurvives(x', y);
  }

  lemma StrippedEndsWithBrace(b: string)
    requires b != [] && b[|b| - 1] == '}'
    ensures var sb := StripJsonFences(b); sb != [] && sb[|sb| - 1] == '}'
  {
    var init := b[..|b| - 1];
    assert init + ['}'] == b;
    assert FenceSafe(['}'][0]);
    StripJsonFencesAppend(init, ['}']);
    assert StripJsonFences(['}']) == ['}'];
  }

  lemma OpeningFenceStripped(b: string, w1: string, tail: string)
    requires b != [] && b[0] == '{' && b[|b| - 1] == '}'
    requires AllPcreSpace(w1) && 'j' !in tail
    ensures StripJsonFences(JsonFence + (w1 + (b + tail))) == StripJsonFences(b) + tail
  {
    var fenced := JsonFence + (w1 + (b + tail));
    var rest := b + tail;
    assert OpensWithJsonFence(fenced);
    assert fenced[|JsonFence|..] == w1 + rest;
    assert rest[0] == '{';
    SpaceFreePrefixSurvives(w1, rest);
    assert StripJsonFences(fenced) == StripJsonFences(rest);
    assert FenceSafe(b[|b| - 1]);
    StripJsonFencesAppend(b, tail);
    StripJsonFencesWithoutJ(tail);
  }

  lemma ClosingFenceStripped(sb: string, w2: string, w3: string)
    requires AllPcreSpace(w3)
    ensures StripClosingFence(sb + (w2 + (Fence + w3))) == sb + w2
  {
    var u := sb + w2 + Fence;
    assert sb + (w2 + (Fence + w3)) == u + w3;
    DropTrailingAppendSpaces(u, w3);
    assert u[|u| - 1] == '`';
    assert DropTrailingPcreSpaces(u) == u;
    assert u[|u| - 3..] == Fence;
    assert u[..|u| - 3] == sb + w2;
  }

  lemma TailHasNoJ(w2: string, w3: string)
    requires AllTrimmed(w2) && AllPcreSpace(w3)
    ensures 'j' !in w2 + (Fence + w3)
  {
    var tail := w2 + (Fence + w3);
    forall i | 0 <= i < |tail| ensures tail[i] != 'j' {
      if i < |w2| { assert tail[i] == w2[i]; }
      else if i >= |w2| + 3 { assert tail[i] == w3[i - |w2| - 3]; }
      else { assert tail[i] == '`'; }
    }
  }

  /** The bare object's own text has no closing fence to strip. */
  lemma BraceEndHasNoClosingFence(sb: string)
    requires sb != [] && sb[|sb| - 1] == '}'
    ensures StripClosingFence(sb) == sb
  {
    assert DropTrailingPcreSpaces(sb) == sb;
  }

  /** A reply wrapped as ```` ```json ```` + whitespace + `{…}` +
      whitespace + ```` ``` ```` + whitespace cleans to the same text as the
      bare object. */
  lemma FencedCleansAsBare(b: string, w1: string, w2: string, w3: string)
    requires b != [] && b[0] == '{' && b[|b| - 1] == '}'
    requires AllPcreSpace(w1) && AllTrimmed(w2) && AllPcreSpace(w3)
    ensures Clean(JsonFence + (w1 + (b + (w2 + (Fence + w3))))) == Clean(b)
  {
    var sb := StripJsonFences(b);
    TailHasNoJ(w2, w3);
    OpeningFenceStripped(b, w1, w2 + (Fence + w3));
    assert sb + (w2 + (Fence + w3)) == sb + w2 + Fence + w3;
    ClosingFenceStripped(sb, w2, w3);
    TrimRightAppendTrimmed(sb, w2);
    StrippedEndsWithBrace(b);
    BraceEndHasNoClosingFence(sb);
  }

  // ---------------------------------------------------------------------
  // Severity tally

  /** `strtolower($issue['severity'] ?? 'low')`: a missing or null
      severity reads as `low`; scalars are converted to text; an array is
      a `TypeError`. */
  function SeverityText(issue: Json): (r: Result<string, Failure>)
    ensures !IsSet(issue, "severity") ==> r == Ok("low")
    ensures r.Err? <==> IsArray(Field(issue, "severity", JStr("low")))
  {
    match Field(issue, "severity", JStr("low"))
    case JStr(s) =>
      assert s == "low" ==> Lower(s) == "low" by {
        if s == "low" { assert Lower(s)[0] == 'l' && Lower(s)[1] == 'o' && Lower(s)[2] == 'w'; }
      }
      Ok(Lower(s))
    case JNum(n) => Ok(IntText(n))
    case JBool(b) => Ok(if b then "1" else "")
    // Not reached: `Field` reads a null `severity` as the default, as
    // `??` does; the case only completes the match.
    case JNull => Ok("")
    case JArr(_) => Err(Error(LowerTypeErrorMessage))
    case JObj(_) => Err(Error(LowerTypeErrorMessage))
  }

  /** The severities the tally has a bucket for. */
  predicate Recognised(issue: Json) {
    SeverityText(issue) in {Ok("high"), Ok("medium"), Ok("low")}
  }

  /** Number of entries whose normalised severity is `word`. */
  function Tally(issues: seq<Json>, word: string): (r: nat)
    ensures r <= |issues|
  {
    if issues == [] then 0
    else Tally(issues[..|issues| - 1], word) + (if SeverityText(issues[|issues| - 1]) == Ok(word) then 1 else 0)
  }

  /** Every entry's severity is one the tally has a bucket for. */
  predicate AllRecognised(issues: seq<Json>) {
    forall i :: 0 <= i < |issues| ==> Recognised(issues[i])
  }

  lemma AllRecognisedSnoc(issues: seq<Json>)
    requires issues != []
    ensures AllRecognised(issues) <==>
      AllRecognised(issues[..|issues| - 1]) && Recognised(issues[|issues| - 1])
  {
    var init := issues[..|issues| - 1];
    if AllRecognised(init) && Recognised(issues[|issues| - 1]) {
      forall i | 0 <= i < |issues| ensures Recognised(issues[i]) {
        if i < |init| {
          assert init[i] == issues[i];
        }
      }
    }
    if AllRecognised(issues) {
      forall i | 0 <= i < |init| ensures Recognised(init[i]) {
        assert init[i] == issues[i];
      }
    }
  }

  /** Every entry's severity can be lower-cased (none is an array). */
  predicate AllSeveritiesText(issues: seq<Json>) {
    forall i :: 0 <= i < |issues| ==> SeverityText(issues[i]).Ok?
  }

  /** The three buckets never hold more than the entries, and they hold
      all of them exactly when every severity is high, medium or low in
      some letter case (or missing). */
  lemma {:induction false} TallyPartition(issues: seq<Json>)
    ensures Tally(issues, "high") + Tally(issues, "medium") + Tally(issues, "low") <= |issues|
    ensures Tally(issues, "high") + Tally(issues, "medium") + Tally(issues, "low") == |issues|
      <==> AllRecognised(issues)
    decreases |issues|
  {
    if issues != [] {
      TallyPartition(issues[..|issues| - 1]);
      AllRecognisedSnoc(issues);
    }
  }

  // ---------------------------------------------------------------------
  // The parser

  /** `$data['issues']`, replaced by an empty list when it is not an array. */
  function IssueEntries(data: Json): (r: seq<Json>)
    ensures !IsArray(Field(data, "issues", JNull)) ==> r == []
  {
    var issues := Field(data, "issues", JNull);
    if IsArray(issues) then Elements(issues) else []
  }

  /** What `parseClaudeResponse` makes of the decoded reply; `None` stands
      for the `JsonException` of `json_decode`. */
  function Interpret(decoded: Option<Json>): (r: Result<Analysis, Failure>)
    ensures decoded.None? <==> r == Err(Exception(ParseFailedMessage))
    ensures r == Err(Exception(InvalidStructureMessage)) <==>
      decoded.Some? && !(IsSet(decoded.value, "summary") && IsSet(decoded.value, "issues"))
    ensures r.Ok? <==>
      && decoded.Some? && IsSet(decoded.value, "summary") && IsSet(decoded.value, "issues")
      && AllSeveritiesText(IssueEntries(decoded.value))
    ensures r.Ok? ==>
      && decoded.Some?
      && r.value.summary == Field(decoded.value, "summary", JNull) != JNull
      && r.value.issues == IssueEntries(decoded.value)
      && r.value.totalIssues == |r.value.issues|
      && r.value.highSeverity == Tally(r.value.issues, "high")
      && r.value.mediumSeverity == Tally(r.value.issues, "medium")
      && r.value.lowSeverity == Tally(r.value.issues, "low")
  {
    match decoded
    case None => Err(Exception(ParseFailedMessage))
    case Some(data) =>
      if !IsSet(data, "summary") || !IsSet(data, "issues") then Err(Exception(InvalidStructureMessage))
      else
        var issues := IssueEntries(data);
        if !AllSeveritiesText(issues) then Err(Error(LowerTypeErrorMessage))
        else Ok(Analysis(
          Field(data, "summary", JNull), issues, |issues|,
          Tally(issues, "high"), Tally(issues, "medium"), Tally(issues, "low")))
  }

  /** What `parseClaudeResponse` returns or throws for `content`, given the
      decoder `decode` that stands for `json_decode(…, true, 512,
      JSON_THROW_ON_ERROR)`. */
  function Parse(content: string, decode: string -> Option<Json>): Result<Analysis, Failure> {
    Interpret(decode(Clean(content)))
  }

  /** The `foreach` of `parseClaudeResponse`: one pass over the entries,
      bumping the bucket named by each lower-cased severity, if any. */
  method TallySeverities(issues: seq<Json>) returns (r: Result<(nat, nat, nat), Failure>)
    ensures AllSeveritiesText(issues) ==>
      r == Ok((Tally(issues, "high"), Tally(issues, "medium"), Tally(issues, "low")))
    ensures !AllSeveritiesText(issues) ==> r == Err(Error(LowerTypeErrorMessage))
  {
    var high, medium, low := 0, 0, 0;
    for i := 0 to |issues|
      invariant AllSeveritiesText(issues[..i])
      invariant high == Tally(issues[..i], "high")
      invariant medium == Tally(issues[..i], "medium")
      invariant low == Tally(issues[..i], "low")
    {
      assert issues[..i + 1][..i] == issues[..i];
      var severity := SeverityText(issues[i]);
      if severity.Err? {
        return Err(severity.error);
      }
      if severity.value == "high" {
        high := high + 1;
      } else if severity.value == "medium" {
        medium := medium + 1;
      } else if severity.value == "low" {
        low := low + 1;
      }
    }
    assert issues[..|issues|] == issues;
    r := Ok((high, medium, low));
  }

  /** `parseClaudeResponse`: strip fences, decode, check the structure,
      coerce `issues`, then tally the severities. */
  method ParseClaudeResponse(content: string, decode: string -> Option<Json>) returns (r: Result<Analysis, Failure>)
    ensures r == Parse(content, decode)
  {
    var text := Clean(content);
    var decoded := decode(text);
    if decoded.None? {
      return Err(Exception(ParseFailedMessage));
    }
    var data := decoded.value;
    if !IsSet(data, "summary") || !IsSet(data, "issues") {
      return Err(Exception(InvalidStructureMessage));
    }
    var issues := IssueEntries(data);
    var counts := TallySeverities(issues);
    if counts.Err? {
      return Err(counts.error);
    }
    var (high, medium, low) := counts.value;
    r := Ok(Analysis(Field(data, "summary", JNull), issues, |issues|, high, medium, low));
  }

  // ---------------------------------------------------------------------
  // Properties of the parser

  /** Wrapping the JSON object in a ```` ```json ```` fence changes nothing. */
  lemma FencedReplyParsesAsBare(b: string, w1: string, w2: string, w3: string, decode: string -> Option<Json>)
    requires b != [] && b[0] == '{' && b[|b| - 1] == '}'
    requires AllPcreSpace(w1) && AllTrimmed(w2) && AllPcreSpace(w3)
    ensures Parse(JsonFence + w1 + b + w2 + Fence + w3, decode) == Parse(b, decode)
  {
    assert JsonFence + w1 + b + w2 + Fence + w3 == JsonFence + (w1 + (b + (w2 + (Fence + w3))));
    FencedCleansAsBare(b, w1, w2, w3);
  }

  /** The counts are a partition of part of the entries: never more than
      the total, and exactly the total when every severity is recognised. */
  lemma ParsedCountsBounded(decoded: Option<Json>)
    requires Interpret(decoded).Ok?
    ensures var a := Interpret(decoded).value;
      && a.highSeverity + a.mediumSeverity + a.lowSeverity <= a.totalIssues
      && (a.highSeverity + a.mediumSeverity + a.lowSeverity == a.totalIssues
          <==> AllRecognised(a.issues))
  {
    var issues := IssueEntries(decoded.value);
    assert Interpret(decoded).value ==
      Analysis(Field(decoded.value, "summary", JNull), issues, |issues|,
        Tally(issues, "high"), Tally(issues, "medium"), Tally(issues, "low"));
    TallyPartition(issues);
  }

  /** A non-array `issues` gives an empty list and all counts zero. */
  lemma NonArrayIssuesCountNothing(data: Json)
    requires IsSet(data, "summary") && IsSet(data, "issues")
    requires !IsArray(Field(data, "issues", JNull))
    ensures var r := Interpret(Some(data));
      r.Ok? && r.value.issues == [] && r.value.totalIssues == 0 &&
      r.value.highSeverity == 0 && r.value.mediumSeverity == 0 && r.value.lowSeverity == 0
  {
    assert IssueEntries(data) == [];
    assert AllSeveritiesText([]);
  }

  /** An entry whose severity is unrecognised (e.g. `"critical"`) is
      counted in no bucket. */
  lemma UnrecognisedCountsNowhere(issues: seq<Json>, extra: Json)
    requires SeverityText(extra).Ok? && !Recognised(extra)
    ensures Tally(issues + [extra], "high") == Tally(issues, "high")
    ensures Tally(issues + [extra], "medium") == Tally(issues, "medium")
    ensures Tally(issues + [extra], "low") == Tally(issues, "low")
  {
    assert (issues + [extra])[..|issues|] == issues;
  }

  /** The worked example: a summary and one issue `{"line": 12,
      "severity": "HIGH", "type": "Security", …}` give one issue, counted
      as high, and nothing else. */
  lemma OneHighIssueExample(summary: string)
    ensures var issue := JObj([
        ("line", JNum(12)), ("severity", JStr("HIGH")), ("type", JStr("Security")),
        ("message", JStr("SQL injection")), ("suggestion", JStr("Use parameterized queries"))]);
      Interpret(Some(JObj([("summary", JStr(summary)), ("issues", JArr([issue]))])))
        == Ok(Analysis(JStr(summary), [issue], 1, 1, 0, 0))
  {
    var issue := JObj([
        ("line", JNum(12)), ("severity", JStr("HIGH")), ("type", JStr("Security")),
        ("message", JStr("SQL injection")), ("suggestion", JStr("Use parameterized queries"))]);
    var data := JObj([("summary", JStr(summary)), ("issues", JArr([issue]))]);
    assert Lookup(data.members, "summary") == Some(JStr(summary));
    assert Lookup(data.members, "issues") == Some(JArr([issue]));
    assert IssueEntries(data) == [issue];
    assert Lookup(issue.members, "severity") == Some(JStr("HIGH")) by {
      assert issue.members[1..][0].0 == "severity";
    }
    assert Lower("HIGH") == "high";
    assert SeverityText(issue) == Ok("high");
    assert [issue][..0] == [];
  }

  // ---------------------------------------------------------------------
  // The outbound call

  /** What the transport produced for one call: an HTTP response with its
      status and the text at `content[0].text` (if any), or an exception
      thrown by the client (connection failure, timeout). */
  datatype Reply = Response(status: int, text: Option<string>) | Thrown(message: string)

  /** `$response->failed()`: a client or server error status. */
  predicate HttpFailed(status: int) {
    status >= 400
  }

  /** What `analyzeCode` returns or throws for one reply. */
  function Analyze(reply: Reply, decode: string -> Option<Json>): (r: Result<Analysis, Failure>)
    ensures reply.Thrown? ==> r == Err(Exception(reply.message))
    ensures reply.Response? && HttpFailed(reply.status) ==> r == Err(Exception(ApiFailedMessage))
    ensures reply.Response? && !HttpFailed(reply.status) ==> r == Parse(reply.text.GetOr(""), decode)
  {
    match reply
    case Thrown(m) => Err(Exception(m))
    case Response(status, text) =>
      if HttpFailed(status) then Err(Exception(ApiFailedMessage)) else Parse(text.GetOr(""), decode)
  }

  /** `analyzeCode`: send the prompt (here: receive `reply`), fail on an
      error status, parse the text, and rethrow anything raised. The prompt
      built from the code, language and file name is not part of this
      model. */
  method AnalyzeCode(reply: Reply, decode: string -> Option<Json>) returns (r: Result<Analysis, Failure>)
    ensures r == Analyze(reply, decode)
  {
    match reply
    case Thrown(m) =>
      r := Err(Exception(m));
    case Response(status, text) =>
      if HttpFailed(status) {
        r := Err(Exception(ApiFailedMessage));
      } else {
        r := ParseClaudeResponse(text.GetOr(""), decode);
      }
  }

  /** A reply without text is parsed as the empty string, which is not
      JSON, so the call fails with the parse message. */
  lemma EmptyReplyFailsToParse(status: int, decode: string -> Option<Json>)
    requires !HttpFailed(status)
    requires decode("") == None
    ensures Analyze(Response(status, None), decode) == Err(Exception(ParseFailedMessage))
  {
    assert Clean("") == "";
  }

  /** `analyzeCode` returns an analysis exactly for a non-error response
      whose cleaned text decodes to a value with `summary` and `issues` set
      and no array severity: no failure is swallowed, and no well-formed
      reply is refused. */
  lemma AnalyzeSucceedsIffWellFormedReply(reply: Reply, decode: string -> Option<Json>)
    ensures Analyze(reply, decode).Ok? <==>
      && reply.Response? && !HttpFailed(reply.status)
      && var data := decode(Clean(reply.text.GetOr("")));
        data.Some? && IsSet(data.value, "summary") && IsSet(data.value, "issues")
        && AllSeveritiesText(IssueEntries(data.value))
  {
  }
}
