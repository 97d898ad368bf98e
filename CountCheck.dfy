/** The count that `get_kfp_create_experiment_count` and
    `check_AMP_connects_to_prometheus` read out of a query response, and the
    comparisons the latter makes between the remote (Amazon Managed Prometheus)
    count, the local Prometheus count and the expected value. */
module CountCheck {
  import opened Python
  import opened PyStr

  /** The text after the last comma of a response (all of it when it has none). */
  function LastSegment(text: string): (seg: string)
    ensures ',' !in seg
  {
    var segments := Split(text, ',');
    segments[|segments| - 1]
  }

  /** `text.split(",")[-1].split('"')[1]`: the text between the first and the
      second double quote of the last comma-separated segment (to its end when
      it has only one quote). */
  function ExtractCount(text: string): (r: Outcome<string>)
    ensures r.Raised? <==> '"' !in LastSegment(text)
    ensures r.Raised? ==> r.error == IndexError
    ensures r.Ok? ==> ',' !in r.value && '"' !in r.value
  {
    SplitSingleIff(LastSegment(text), '"');
    PiecesWithin(LastSegment(text), '"', ',');
    var quoted := Split(LastSegment(text), '"');
    if |quoted| < 2 then Raised(IndexError) else Ok(quoted[1])
  }

  /** A piece of a split holds no character the split string lacks. */
  lemma {:induction false} PiecesWithin(s: string, sep: char, c: char)
    requires c !in s
    ensures forall i :: 0 <= i < |Split(s, sep)| ==> c !in Split(s, sep)[i]
    decreases |s|
  {
    if s != [] {
      assert c !in s[1..];
      PiecesWithin(s[1..], sep, c);
    }
  }

  /** Extraction reads back a count placed between quotes after the last comma:
      `prefix` is empty or ends with a comma, `lead` precedes the opening quote,
      and what follows the count is empty or starts with the closing quote. */
  lemma ExtractCountOf(prefix: string, lead: string, count: string, trail: string)
    requires prefix == [] || prefix[|prefix| - 1] == ','
    requires ',' !in lead && '"' !in lead
    requires ',' !in count && '"' !in count
    requires ',' !in trail && (trail == [] || trail[0] == '"')
    ensures ExtractCount(prefix + lead + ['"'] + count + trail) == Ok(count)
  {
    var seg := lead + ['"'] + count + trail;
    assert prefix + lead + ['"'] + count + trail == prefix + seg;
    LastPiece(prefix, seg, ',');
    assert seg == lead + ['"'] + (count + trail);
    SplitAround(lead, count + trail, '"');
    SplitNoSep(lead, '"');
    if trail == [] {
      assert count + trail == count;
      SplitNoSep(count, '"');
    } else {
      assert count + trail == count + ['"'] + trail[1..];
      SplitAround(count, trail[1..], '"');
      SplitNoSep(count, '"');
    }
  }

  /** A query whose result vector is empty ends in `"result":[]}}`; extraction
      then reads the word `result` as the count instead of failing. */
  lemma EmptyResultReadsAsCount(prefix: string)
    requires prefix == [] || prefix[|prefix| - 1] == ','
    ensures ExtractCount(prefix + "\"result\":[]}}") == Ok("result")
  {
    assert prefix + "\"result\":[]}}" == prefix + "" + ['"'] + "result" + "\":[]}}";
    ExtractCountOf(prefix, "", "result", "\":[]}}");
  }

  /** `check_AMP_connects_to_prometheus` after its two queries: the remote count
      is read first, then the local one; they must agree, then the local one
      must equal `str(expected)`; the remote count is returned. */
  function CheckAmpConnectsToPrometheus(ampResponse: string, promResponse: string, expected: int)
    : (r: Outcome<string>)
    ensures r.Ok? <==> ExtractCount(ampResponse).Ok? && ExtractCount(promResponse) == ExtractCount(ampResponse)
                       && ExtractCount(promResponse).value == IntToString(expected)
    ensures r.Ok? ==> r.value == ExtractCount(ampResponse).value
    ensures r.Raised? ==> r.error == IndexError || r.error == AssertionError(CountsAgree)
                          || r.error == AssertionError(CountIsExpected)
  {
    match ExtractCount(ampResponse)
    case Raised(e) => Raised(e)
    case Ok(ampCount) =>
      match ExtractCount(promResponse)
      case Raised(e) => Raised(e)
      case Ok(promCount) =>
        if ampCount != promCount then Raised(AssertionError(CountsAgree))
        else if IntToString(expected) != promCount then Raised(AssertionError(CountIsExpected))
        else Ok(ampCount)
  }

  /** Counts that disagree fail the first assertion whatever the expected value:
      the expected-value assertion is never reached. */
  lemma DisagreementFailsFirst(ampResponse: string, promResponse: string, expected: int)
    requires ExtractCount(ampResponse).Ok? && ExtractCount(promResponse).Ok?
    requires ExtractCount(ampResponse).value != ExtractCount(promResponse).value
    ensures CheckAmpConnectsToPrometheus(ampResponse, promResponse, expected)
            == Raised(AssertionError(CountsAgree))
  {
  }

  /** A passing check determines the expected value: no two different expected
      values pass on the same responses. */
  lemma PassDeterminesExpected(ampResponse: string, promResponse: string, e1: int, e2: int)
    requires CheckAmpConnectsToPrometheus(ampResponse, promResponse, e1).Ok?
    requires CheckAmpConnectsToPrometheus(ampResponse, promResponse, e2).Ok?
    ensures e1 == e2
  {
    IntToStringInjective(e1, e2);
  }

  /** Both sides use the same extraction, so identical responses never fail the
      agreement assertion: the check then passes exactly when the shared count
      is `str(expected)`. */
  lemma IdenticalResponsesAgree(response: string, expected: int)
    ensures CheckAmpConnectsToPrometheus(response, response, expected) != Raised(AssertionError(CountsAgree))
    ensures CheckAmpConnectsToPrometheus(response, response, expected).Ok? <==>
            ExtractCount(response) == Ok(IntToString(expected))
  {
  }

  /** Remote and local both report `"5"` and 5 is expected: the check returns `"5"`;
      had the remote reported `"6"`, the agreement assertion would fail first. */
  lemma FiveAgainstSix(ampPrefix: string, promPrefix: string)
    requires ampPrefix == [] || ampPrefix[|ampPrefix| - 1] == ','
    requires promPrefix == [] || promPrefix[|promPrefix| - 1] == ','
    ensures CheckAmpConnectsToPrometheus(ampPrefix + "\"5\"]}]}}", promPrefix + "\"5\"]}]}}", 5) == Ok("5")
    ensures CheckAmpConnectsToPrometheus(ampPrefix + "\"6\"]}]}}", promPrefix + "\"5\"]}]}}", 5)
            == Raised(AssertionError(CountsAgree))
  {
    assert ampPrefix + "\"5\"]}]}}" == ampPrefix + "" + ['"'] + "5" + "\"]}]}}";
    assert ampPrefix + "\"6\"]}]}}" == ampPrefix + "" + ['"'] + "6" + "\"]}]}}";
    assert promPrefix + "\"5\"]}]}}" == promPrefix + "" + ['"'] + "5" + "\"]}]}}";
    ExtractCountOf(ampPrefix, "", "5", "\"]}]}}");
    ExtractCountOf(ampPrefix, "", "6", "\"]}]}}");
    ExtractCountOf(promPrefix, "", "5", "\"]}]}}");
    assert IntToString(5) == "5";
  }
}
