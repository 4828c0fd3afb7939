/** The exchange service: it classifies the downloaded rates against a fixed
    band and hands a record of the check to the outputter. */
module Exchange {
  import opened Domain

  const LowerLimit: real := 4.5
  const UpperLimit: real := 4.7

  // ---------------------------------------------------------------------
  // Classification
  // ---------------------------------------------------------------------

  /** A mid value outside the band [LowerLimit, UpperLimit]. */
  predicate IsTarget(mid: real) {
    mid < LowerLimit || mid > UpperLimit
  }

  /** The band is well formed and inclusive: both limits and everything
      between them are not flagged, everything else is. */
  lemma BandIsInclusive(mid: real)
    ensures LowerLimit <= UpperLimit
    ensures !IsTarget(LowerLimit) && !IsTarget(UpperLimit)
    ensures IsTarget(mid) <==> !(LowerLimit <= mid <= UpperLimit)
  {
  }

  /** The effective dates of the flagged rates, in the order of the rates. */
  function TargetDays(rates: seq<SingleRate>): (days: seq<string>)
    ensures |days| <= |rates|
  {
    if rates == [] then []
    else
      var last := rates[|rates| - 1];
      TargetDays(rates[..|rates| - 1]) + (if IsTarget(last.midValue) then [last.effectiveDate] else [])
  }

  /** Classification distributes over concatenation: the flagged dates of a
      list are those of its first part followed by those of the rest, so the
      order of the rates is kept and repeated dates are kept. */
  lemma {:induction false} TargetDaysAppend(a: seq<SingleRate>, b: seq<SingleRate>)
    ensures TargetDays(a + b) == TargetDays(a) + TargetDays(b)
    decreases |b|
  {
    if b != [] {
      var init := b[..|b| - 1];
      TargetDaysAppend(a, init);
      assert (a + b)[..|a + b| - 1] == a + init;
      assert (a + b)[|a + b| - 1] == b[|b| - 1];
    } else {
      assert a + b == a;
    }
  }

  /** A single rate contributes its date exactly when its mid value is
      outside the band. */
  lemma TargetDaysSingle(r: SingleRate)
    ensures TargetDays([r]) == if IsTarget(r.midValue) then [r.effectiveDate] else []
  {
    assert [r][..0] == [];
  }

  /** A date is flagged exactly when some rate with that date has a mid value
      outside the band. */
  lemma {:induction false} TargetDaysMembership(rates: seq<SingleRate>, date: string)
    ensures date in TargetDays(rates) <==>
      exists i :: 0 <= i < |rates| && rates[i].effectiveDate == date && IsTarget(rates[i].midValue)
    decreases |rates|
  {
    if rates != [] {
      var init := rates[..|rates| - 1];
      var n := |rates| - 1;
      TargetDaysMembership(init, date);
      if date in TargetDays(init) {
        var i :| 0 <= i < |init| && init[i].effectiveDate == date && IsTarget(init[i].midValue);
        assert rates[i] == init[i];
      }
      if exists i :: 0 <= i < |rates| && rates[i].effectiveDate == date && IsTarget(rates[i].midValue) {
        var i :| 0 <= i < |rates| && rates[i].effectiveDate == date && IsTarget(rates[i].midValue);
        if i < n {
          assert init[i] == rates[i];
        }
      }
    }
  }

  /** The classifier on two example lists. */
  lemma ClassificationExamples()
    ensures TargetDays([
      SingleRate("1", "2024-01-01", 4.40),
      SingleRate("2", "2024-01-02", 4.60),
      SingleRate("3", "2024-01-03", 4.80)]) == ["2024-01-01", "2024-01-03"]
    ensures TargetDays([SingleRate("1", "d1", 4.55)]) == []
  {
    var r1 := SingleRate("1", "2024-01-01", 4.40);
    var r2 := SingleRate("2", "2024-01-02", 4.60);
    var r3 := SingleRate("3", "2024-01-03", 4.80);
    TargetDaysSingle(r1);
    TargetDaysSingle(r2);
    TargetDaysSingle(r3);
    TargetDaysAppend([r1], [r2]);
    TargetDaysAppend([r1, r2], [r3]);
    assert [r1] + [r2] == [r1, r2];
    assert [r1, r2] + [r3] == [r1, r2, r3];
    TargetDaysSingle(SingleRate("1", "d1", 4.55));
  }

  /** `findTargetDays` with the mid value numeric, as the rate record
      declares it: walks the rates in order and appends the date of every
      rate outside the band. It never fails. */
  method FindTargetDays(rates: ExchangeRates) returns (targetDays: seq<string>, err: Option<Error>)
    ensures targetDays == TargetDays(rates.rates)
    ensures err == None
  {
    targetDays := [];
    for i := 0 to |rates.rates|
      invariant targetDays == TargetDays(rates.rates[..i])
    {
      var rate := rates.rates[i];
      ghost var seen := rates.rates[..i + 1];
      assert seen[..|seen| - 1] == rates.rates[..i] && seen[|seen| - 1] == rate;
      if rate.midValue < LowerLimit || rate.midValue > UpperLimit {
        targetDays := targetDays + [rate.effectiveDate];
      }
    }
    assert rates.rates[..|rates.rates|] == rates.rates;
    return targetDays, None;
  }

  // ---------------------------------------------------------------------
  // Classification as written, with its mid-value conversion
  // ---------------------------------------------------------------------

  /** What `strconv.ParseFloat` returns: a value, and an error when the
      conversion failed (the value is then the one the parser falls back to). */
  datatype ParseFloatResult = ParseFloatResult(value: real, err: Option<Error>)

  /** The rates with each mid value replaced by what the conversion gave. */
  function Converted(rates: seq<SingleRate>, parse: real -> ParseFloatResult): (converted: seq<SingleRate>)
    ensures |converted| == |rates|
    ensures forall i :: 0 <= i < |rates| ==>
      converted[i] == rates[i].(midValue := parse(rates[i].midValue).value)
  {
    if rates == [] then []
    else
      var last := rates[|rates| - 1];
      Converted(rates[..|rates| - 1], parse) + [last.(midValue := parse(last.midValue).value)]
  }

  /** The position of the first rate whose mid value converts without error,
      or the number of rates when there is none. */
  function FirstConverted(rates: seq<SingleRate>, parse: real -> ParseFloatResult): (k: nat)
    ensures k <= |rates|
    ensures forall j :: 0 <= j < k ==> parse(rates[j].midValue).err.Some?
    ensures k < |rates| ==> parse(rates[k].midValue).err.None?
  {
    if rates == [] then 0
    else if parse(rates[0].midValue).err.None? then 0
    else 1 + FirstConverted(rates[1..], parse)
  }

  datatype Classification = Classification(targetDays: seq<string>, err: Option<Error>)

  /** What the loop as written returns: its guard fires when the conversion
      SUCCEEDS, so the first rate that converts ends the loop with an error
      and no dates; only when every conversion fails does it classify, and
      then it classifies the fallback values. */
  function AsWrittenOutcome(rates: seq<SingleRate>, parse: real -> ParseFloatResult): Classification
  {
    var k := FirstConverted(rates, parse);
    if k < |rates| then
      Classification([], Some(ConvertingMid(rates[k].rateNumber, rates[k].midValue, parse(rates[k].midValue).err)))
    else
      Classification(TargetDays(Converted(rates, parse)), None)
  }

  /** `findTargetDays` as written: each mid value goes through a conversion
      (`parse`) and the loop returns early when the conversion reports no
      error. */
  method FindTargetDaysAsWritten(rates: ExchangeRates, parse: real -> ParseFloatResult)
    returns (targetDays: seq<string>, err: Option<Error>)
    ensures Classification(targetDays, err) == AsWrittenOutcome(rates.rates, parse)
  {
    targetDays := [];
    for i := 0 to |rates.rates|
      invariant AsWrittenOutcome(rates.rates[..i], parse) == Classification(targetDays, None)
    {
      var rate := rates.rates[i];
      var converted := parse(rate.midValue);
      AsWrittenExtend(rates.rates, parse, i);
      if converted.err.None? {
        return [], Some(ConvertingMid(rate.rateNumber, rate.midValue, converted.err));
      }
      var midValue := converted.value;
      if midValue < LowerLimit || midValue > UpperLimit {
        targetDays := targetDays + [rate.effectiveDate];
      }
    }
    assert rates.rates[..|rates.rates|] == rates.rates;
    return targetDays, None;
  }

  /** One more step of the loop as written: with no converting rate among
      the first `i`, a converting rate at `i` decides the whole outcome, and
      a failing one adds its date when its fallback value is outside the
      band. */
  lemma AsWrittenExtend(rates: seq<SingleRate>, parse: real -> ParseFloatResult, i: nat)
    requires i < |rates| && AsWrittenOutcome(rates[..i], parse).err.None?
    ensures parse(rates[i].midValue).err.None? ==>
      AsWrittenOutcome(rates, parse)
      == Classification([], Some(ConvertingMid(rates[i].rateNumber, rates[i].midValue, None)))
    ensures parse(rates[i].midValue).err.Some? ==>
      AsWrittenOutcome(rates[..i + 1], parse)
      == Classification(
           AsWrittenOutcome(rates[..i], parse).targetDays
           + (if IsTarget(parse(rates[i].midValue).value) then [rates[i].effectiveDate] else []),
           None)
  {
    var prefix := rates[..i];
    var k := FirstConverted(prefix, parse);
    assert k == i;
    assert forall j :: 0 <= j < i ==> prefix[j] == rates[j];
    if parse(rates[i].midValue).err.None? {
      FirstConvertedAt(rates, parse, i);
    } else {
      FirstConvertedAt(rates[..i + 1], parse, i + 1);
      ConvertedStep(rates, parse, i);
    }
  }

  /** One more rate adds its date when its converted value is outside the band. */
  lemma ConvertedStep(rates: seq<SingleRate>, parse: real -> ParseFloatResult, i: nat)
    requires i < |rates|
    ensures TargetDays(Converted(rates[..i + 1], parse)) ==
      TargetDays(Converted(rates[..i], parse))
      + (if IsTarget(parse(rates[i].midValue).value) then [rates[i].effectiveDate] else [])
  {
    var seen := rates[..i + 1];
    assert seen[..|seen| - 1] == rates[..i] && seen[|seen| - 1] == rates[i];
    var now := Converted(seen, parse);
    assert now[..|now| - 1] == Converted(rates[..i], parse);
  }

  /** The first converting rate is at `i` when all before it fail. */
  lemma {:induction false} FirstConvertedAt(rates: seq<SingleRate>, parse: real -> ParseFloatResult, i: nat)
    requires i <= |rates|
    requires forall j :: 0 <= j < i ==> parse(rates[j].midValue).err.Some?
    requires i < |rates| ==> parse(rates[i].midValue).err.None?
    ensures FirstConverted(rates, parse) == i
    decreases i
  {
    if i > 0 {
      FirstConvertedAt(rates[1..], parse, i - 1);
    }
  }

  /** The inverted guard: when the first rate's mid value converts, the
      classifier as written reports a conversion error carrying a nil cause
      and returns no dates. */
  lemma InvertedGuardRejectsParsedFirstRate(rates: seq<SingleRate>, parse: real -> ParseFloatResult)
    requires |rates| > 0 && parse(rates[0].midValue).err.None?
    ensures AsWrittenOutcome(rates, parse) ==
      Classification([], Some(ConvertingMid(rates[0].rateNumber, rates[0].midValue, None)))
  {
  }

  /** As written, the result is an error exactly when some mid value
      converts, and an error never comes with a partial list of dates. */
  lemma AsWrittenErrorIff(rates: seq<SingleRate>, parse: real -> ParseFloatResult)
    ensures AsWrittenOutcome(rates, parse).err.Some? <==>
      exists j :: 0 <= j < |rates| && parse(rates[j].midValue).err.None?
    ensures AsWrittenOutcome(rates, parse).err.Some? ==> AsWrittenOutcome(rates, parse).targetDays == []
  {
  }

  /** With a conversion that always succeeds and keeps the value, the
      classifier as written fails on every non-empty list, while the
      corrected classifier flags the dates outside the band. Empty lists give
      no dates and no error either way. */
  lemma AsWrittenVersusCorrected(rates: seq<SingleRate>, parse: real -> ParseFloatResult)
    requires forall x :: parse(x) == ParseFloatResult(x, None)
    ensures |rates| > 0 ==> AsWrittenOutcome(rates, parse).err.Some?
    ensures |rates| == 0 ==> AsWrittenOutcome(rates, parse) == Classification(TargetDays(rates), None) == Classification([], None)
  {
  }

  // ---------------------------------------------------------------------
  // One check
  // ---------------------------------------------------------------------

  /** `service.GetRates`, given the time captured at its start, the two
      values it binds from the downloader, and the outputter (the error it
      returns for a record, if any). Whatever the classification yields, the
      record is handed to the outputter; only the outputter's error is
      reported, wrapped with the timestamp. */
  method GetRates(
    timestamp: Instant,
    rates: ExchangeRates,
    metadata: RequestMetadata,
    output: StructuredOutput -> Option<Error>)
    returns (sent: StructuredOutput, err: Option<Error>)
    ensures sent.outputTimestamp == timestamp
    ensures sent.requestDuration == metadata.requestDuration
    ensures sent.responseHTTPCode == metadata.responseHTTPCode
    ensures sent.responseContentType == metadata.responseContentType
    ensures sent.responseValidJSON == metadata.responseValidJSON
    ensures sent.targetDays == TargetDays(rates.rates)
    ensures err.Some? <==> output(sent).Some?
    ensures output(sent).Some? ==> err == Some(SendingToOutputter(timestamp, output(sent).value))
  {
    var targetDays, classifyErr := FindTargetDays(rates);
    sent := StructuredOutput(
      timestamp,
      metadata.requestDuration,
      metadata.responseHTTPCode,
      metadata.responseContentType,
      metadata.responseValidJSON,
      targetDays);
    var outErr := output(sent);
    if outErr.Some? {
      return sent, Some(SendingToOutputter(timestamp, outErr.value));
    }
    return sent, None;
  }
}
