/**
  The post-processing both analysers (`analyze_reminder_handlers`,
  `analyze_reminder_db`) apply to the date extractor's result. The
  extractor itself is not modelled: its result is an input.
 */
module Analysis {
  import opened Prelude
  import opened Text
  import opened Calendar

  /** One date candidate found by the extractor; only its `date_from` is read. */
  datatype DateCandidate = DateCandidate(dateFrom: Timestamp)

  /**
    The extractor's result: the message's tokens with the recognised date
    phrase replaced by the placeholder `'{0}'`, and the date candidates.
   */
  datatype Extraction = Extraction(tokens: seq<string>, dates: seq<DateCandidate>)

  /** The two exceptions the post-processing can raise. */
  datatype AnalysisError = ValueError | IndexError

  /** What `analyze_reminder_db` returns: the reminder body and the fire time. */
  datatype Analysed = Analysed(text: string, fireAt: Timestamp)

  /** What `analyze_reminder_handlers` returns: the same two, and the fire time formatted for the reply. */
  datatype Announced = Announced(text: string, fireAt: Timestamp, dateStr: string, timeStr: string)

  const Placeholder: string := "{0}"

  /** Index of the first occurrence of `x` in `ts`. */
  function FirstIndex(ts: seq<string>, x: string): (r: Option<nat>)
    ensures r.None? <==> x !in ts
    ensures r.Some? ==> r.value < |ts| && ts[r.value] == x && x !in ts[..r.value]
  {
    if ts == [] then None
    else if ts[0] == x then Some(0)
    else match FirstIndex(ts[1..], x)
      case None => None
      case Some(i) =>
        assert ts[..i + 1] == [ts[0]] + ts[1..][..i];
        Some(i + 1)
  }

  /** Python's `ts.remove(x)`: drops the first occurrence of `x`; `None` where Python raises `ValueError`. */
  function RemoveFirst(ts: seq<string>, x: string): (r: Option<seq<string>>)
    ensures r.None? <==> x !in ts
    ensures r.Some? ==> exists i :: 0 <= i < |ts| && ts[i] == x && x !in ts[..i] && r.value == ts[..i] + ts[i + 1..]
  {
    match FirstIndex(ts, x)
    case None => None
    case Some(i) => Some(ts[..i] + ts[i + 1..])
  }

  /** `list.remove` takes out exactly one occurrence and keeps every other token, later placeholders included. */
  lemma RemoveFirstCount(ts: seq<string>, x: string)
    requires x in ts
    ensures RemoveFirst(ts, x).Some?
    ensures multiset(RemoveFirst(ts, x).value) == multiset(ts) - multiset{x}
    ensures multiset(RemoveFirst(ts, x).value)[x] == multiset(ts)[x] - 1
  {
    var i := FirstIndex(ts, x).value;
    var a, b := ts[..i], ts[i + 1..];
    assert ts == a + [x] + b;
    assert RemoveFirst(ts, x).value == a + b;
    calc {
      multiset(ts);
      multiset(a + [x] + b);
      multiset(a) + multiset{x} + multiset(b);
      multiset(a + b) + multiset{x};
    }
  }

  /**
    `analyze_reminder_db`: remove the first placeholder (`ValueError` if
    there is none), join the remaining tokens with single spaces, and take
    the first date candidate (`IndexError` if there is none).
   */
  function AnalyzeDb(ex: Extraction): (r: Result<Analysed, AnalysisError>)
    ensures r == Failure(ValueError) <==> Placeholder !in ex.tokens
    ensures r == Failure(IndexError) <==> Placeholder in ex.tokens && ex.dates == []
    ensures r.Success? ==> r.value.fireAt == ex.dates[0].dateFrom
    ensures r.Success? ==> exists i ::
      && 0 <= i < |ex.tokens| && ex.tokens[i] == Placeholder && Placeholder !in ex.tokens[..i]
      && r.value.text == JoinSpaced(ex.tokens[..i] + ex.tokens[i + 1..])
  {
    match RemoveFirst(ex.tokens, Placeholder)
    case None => Failure(ValueError)
    case Some(rest) =>
      if ex.dates == [] then Failure(IndexError)
      else Success(Analysed(JoinSpaced(rest), ex.dates[0].dateFrom))
  }

  /**
    `analyze_reminder_handlers`: the same post-processing, followed by
    `strftime("%d %B")` and `strftime("%H:%M")` of the fire time. `%B` is the
    month name of the process locale, which is a parameter here.
   */
  function AnalyzeHandlers(ex: Extraction, monthName: int -> string): (r: Result<Announced, AnalysisError>)
    ensures r.Success? ==> |r.value.timeStr| == 5 && r.value.timeStr[2] == ':'
  {
    match RemoveFirst(ex.tokens, Placeholder)
    case None => Failure(ValueError)
    case Some(rest) =>
      if ex.dates == [] then Failure(IndexError)
      else
        var from := ex.dates[0].dateFrom;
        var dt := FromSeconds(from);
        Success(Announced(JoinSpaced(rest), from,
                          Pad2(dt.day) + " " + monthName(dt.month),
                          Pad2(dt.hour) + ":" + Pad2(dt.minute)))
  }

  /** Both analysers fail alike and otherwise agree on body and fire time. */
  lemma AnalysersAgree(ex: Extraction, monthName: int -> string)
    ensures AnalyzeDb(ex).Success? <==> AnalyzeHandlers(ex, monthName).Success?
    ensures AnalyzeDb(ex).Failure? ==> AnalyzeDb(ex).error == AnalyzeHandlers(ex, monthName).error
    ensures AnalyzeDb(ex).Success? ==>
      && AnalyzeDb(ex).value.text == AnalyzeHandlers(ex, monthName).value.text
      && AnalyzeDb(ex).value.fireAt == AnalyzeHandlers(ex, monthName).value.fireAt
  {
  }

  /** `%H:%M` is the hour-and-minute part of the `str()` rendering of the same fire time. */
  lemma TimeStrMatchesRender(ex: Extraction, monthName: int -> string)
    requires AnalyzeHandlers(ex, monthName).Success?
    ensures var a := AnalyzeHandlers(ex, monthName).value;
      a.timeStr == Render(FromSeconds(a.fireAt))[11..16]
  {
    var a := AnalyzeHandlers(ex, monthName).value;
    var dt := FromSeconds(a.fireAt);
    RenderShape(dt);
    var r := Render(dt);
    assert r[11..16] == r[11..13] + [r[13]] + r[14..16];
  }

  /**
    The reminder body splits back into exactly the extractor's tokens minus
    the first placeholder, in their original order, whenever the tokens are
    whitespace-free words.
   */
  lemma AnalysedBodyTokens(ex: Extraction, i: nat)
    requires i < |ex.tokens| && ex.tokens[i] == Placeholder && Placeholder !in ex.tokens[..i]
    requires ex.dates != []
    requires forall k :: 0 <= k < |ex.tokens| ==> IsWord(ex.tokens[k])
    ensures AnalyzeDb(ex).Success?
    ensures Words(AnalyzeDb(ex).value.text) == ex.tokens[..i] + ex.tokens[i + 1..]
  {
    var rest := ex.tokens[..i] + ex.tokens[i + 1..];
    var j :| 0 <= j < |ex.tokens| && ex.tokens[j] == Placeholder && Placeholder !in ex.tokens[..j]
      && RemoveFirst(ex.tokens, Placeholder).value == ex.tokens[..j] + ex.tokens[j + 1..];
    forall k | 0 <= k < |rest| ensures IsWord(rest[k]) {
      if k < i { assert rest[k] == ex.tokens[k]; } else { assert rest[k] == ex.tokens[k + 1]; }
    }
    WordsOfJoin(rest);
  }

  /** Date candidates after the first never influence the result. */
  lemma LaterCandidatesIgnored(ex: Extraction, more: seq<DateCandidate>)
    requires ex.dates != []
    ensures AnalyzeDb(ex.(dates := [ex.dates[0]] + more)) == AnalyzeDb(ex)
  {
  }
}
