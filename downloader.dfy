/** The downloader: it reads the exchange-rate table over HTTP and reports,
    beside the table, the request's duration, status, media type and whether
    the body decoded. The HTTP round trip itself is an input here. */
module Downloader {
  import opened Domain
  import opened GoStrings

  const ContentTypePrefix: string := "Content-Type: "

  // ---------------------------------------------------------------------
  // Content-Type parsing
  // ---------------------------------------------------------------------

  /** A `;`-separated piece that names the media type. */
  predicate IsMediaTypeSegment(seg: string) {
    '/' in seg
  }

  /** A `;`-separated piece that is a `key=value` parameter; a piece with a
      `/` is a media type even when it also holds `=`. */
  predicate IsParamSegment(seg: string) {
    '/' !in seg && '=' in seg
  }

  /** The trimmed text before the first `=`. */
  function ParamKey(seg: string): string
    requires '=' in seg
  {
    TrimSpace(SplitOnce(seg, '=')[0])
  }

  /** The trimmed text after the first `=`; it may itself hold `=`. */
  function ParamValue(seg: string): string
    requires '=' in seg
  {
    TrimSpace(SplitOnce(seg, '=')[1])
  }

  /** The media type left after the segments were visited in order. */
  function MediaTypeOf(segs: seq<string>): string
  {
    if segs == [] then ""
    else if IsMediaTypeSegment(segs[|segs| - 1]) then TrimSpace(segs[|segs| - 1])
    else MediaTypeOf(segs[..|segs| - 1])
  }

  /** The parameter map left after the segments were visited in order. */
  function ParamsOf(segs: seq<string>): map<string, string>
  {
    if segs == [] then map[]
    else
      var last := segs[|segs| - 1];
      var params := ParamsOf(segs[..|segs| - 1]);
      if IsParamSegment(last) then params[ParamKey(last) := ParamValue(last)] else params
  }

  /** The media type of a whole header value. */
  function MediaType(contentType: string): string
  {
    MediaTypeOf(Split(contentType, ';'))
  }

  /** `parseMediaType`: splits the header value on `;`; a segment holding `/`
      sets the media type, any other segment holding `=` sets a parameter. */
  method ParseMediaType(contentType: string) returns (mediaType: string, params: map<string, string>)
    ensures mediaType == MediaTypeOf(Split(contentType, ';'))
    ensures params == ParamsOf(Split(contentType, ';'))
  {
    var segments := Split(contentType, ';');
    mediaType := "";
    params := map[];
    for i := 0 to |segments|
      invariant mediaType == MediaTypeOf(segments[..i])
      invariant params == ParamsOf(segments[..i])
    {
      var val := segments[i];
      ParseStep(segments, i);
      if '/' in val {
        mediaType := TrimSpace(val);
        continue;
      }
      if '=' in val {
        var parts := SplitOnce(val, '=');
        if |parts| == 2 {
          var key := TrimSpace(parts[0]);
          var value := TrimSpace(parts[1]);
          params := params[key := value];
        }
      }
    }
    assert segments[..|segments|] == segments;
  }

  /** Visiting one more segment. */
  lemma ParseStep(segs: seq<string>, i: nat)
    requires i < |segs|
    ensures MediaTypeOf(segs[..i + 1]) ==
      if IsMediaTypeSegment(segs[i]) then TrimSpace(segs[i]) else MediaTypeOf(segs[..i])
    ensures ParamsOf(segs[..i + 1]) ==
      if IsParamSegment(segs[i]) then ParamsOf(segs[..i])[ParamKey(segs[i]) := ParamValue(segs[i])]
      else ParamsOf(segs[..i])
  {
    var seen := segs[..i + 1];
    assert seen[..|seen| - 1] == segs[..i] && seen[|seen| - 1] == segs[i];
  }

  /** The media type is the trimmed last segment that holds a `/`. */
  lemma {:induction false} MediaTypeIsLastSlashSegment(segs: seq<string>, j: nat)
    requires j < |segs| && IsMediaTypeSegment(segs[j])
    requires forall k :: j < k < |segs| ==> !IsMediaTypeSegment(segs[k])
    ensures MediaTypeOf(segs) == TrimSpace(segs[j])
    decreases |segs|
  {
    if j < |segs| - 1 {
      MediaTypeIsLastSlashSegment(segs[..|segs| - 1], j);
    }
  }

  /** The media type is empty exactly when no segment holds a `/`. */
  lemma {:induction false} MediaTypeEmptyIff(segs: seq<string>)
    ensures MediaTypeOf(segs) == "" <==> forall k :: 0 <= k < |segs| ==> !IsMediaTypeSegment(segs[k])
    decreases |segs|
  {
    if segs != [] {
      var last := segs[|segs| - 1];
      var init := segs[..|segs| - 1];
      MediaTypeEmptyIff(init);
      if IsMediaTypeSegment(last) {
        TrimSpaceKeeps(last, '/');
      } else {
        assert forall k :: 0 <= k < |init| ==> init[k] == segs[k];
      }
    }
  }

  /** Every parameter segment leaves its key in the map. */
  lemma {:induction false} ParamKeyKept(segs: seq<string>, j: nat)
    requires j < |segs| && IsParamSegment(segs[j])
    ensures ParamKey(segs[j]) in ParamsOf(segs)
    decreases |segs|
  {
    if j < |segs| - 1 {
      var init := segs[..|segs| - 1];
      assert init[j] == segs[j];
      ParamKeyKept(init, j);
    }
  }

  /** Every key of the map comes from a parameter segment. */
  lemma {:induction false} ParamKeyOrigin(segs: seq<string>, key: string) returns (j: nat)
    requires key in ParamsOf(segs)
    ensures j < |segs| && IsParamSegment(segs[j]) && ParamKey(segs[j]) == key
    decreases |segs|
  {
    var init := segs[..|segs| - 1];
    var last := segs[|segs| - 1];
    if IsParamSegment(last) && ParamKey(last) == key {
      j := |segs| - 1;
    } else {
      j := ParamKeyOrigin(init, key);
      assert init[j] == segs[j];
    }
  }

  /** A key is in the parameter map exactly when some parameter segment
      (no `/`, at least one `=`) names it. */
  lemma ParamKeys(segs: seq<string>, key: string)
    ensures key in ParamsOf(segs) <==>
      exists j :: 0 <= j < |segs| && IsParamSegment(segs[j]) && ParamKey(segs[j]) == key
  {
    if key in ParamsOf(segs) {
      var j := ParamKeyOrigin(segs, key);
    }
    if exists j :: 0 <= j < |segs| && IsParamSegment(segs[j]) && ParamKey(segs[j]) == key {
      var j :| 0 <= j < |segs| && IsParamSegment(segs[j]) && ParamKey(segs[j]) == key;
      ParamKeyKept(segs, j);
    }
  }

  /** When a key is set more than once, the last parameter segment that
      names it gives its value. */
  lemma {:induction false} ParamLastWins(segs: seq<string>, j: nat)
    requires j < |segs| && IsParamSegment(segs[j])
    requires forall k :: j < k < |segs| && IsParamSegment(segs[k]) ==> ParamKey(segs[k]) != ParamKey(segs[j])
    ensures ParamKey(segs[j]) in ParamsOf(segs)
    ensures ParamsOf(segs)[ParamKey(segs[j])] == ParamValue(segs[j])
    decreases |segs|
  {
    if j < |segs| - 1 {
      var init := segs[..|segs| - 1];
      assert init[j] == segs[j];
      ParamLastWins(init, j);
    }
  }

  /** Every piece of the split header is free of `;`, so is everything
      parsed from it; and all of it is trimmed. */
  lemma {:induction false} ParsedPartsTrimmed(segs: seq<string>)
    requires forall k :: 0 <= k < |segs| ==> ';' !in segs[k]
    ensures Trimmed(MediaTypeOf(segs)) && ';' !in MediaTypeOf(segs)
    ensures forall key :: key in ParamsOf(segs) ==>
      Trimmed(key) && ';' !in key && Trimmed(ParamsOf(segs)[key]) && ';' !in ParamsOf(segs)[key]
    decreases |segs|
  {
    if segs != [] {
      var last := segs[|segs| - 1];
      var init := segs[..|segs| - 1];
      assert forall k :: 0 <= k < |init| ==> init[k] == segs[k];
      ParsedPartsTrimmed(init);
      if IsMediaTypeSegment(last) {
        TrimSpaceExcludes(last, ';');
      }
      if IsParamSegment(last) {
        var parts := SplitOnce(last, '=');
        assert last == parts[0] + ['='] + parts[1];
        assert ';' !in parts[0] && ';' !in parts[1] by {
          SliceExcludes(last, 0, |parts[0]|, ';');
          assert parts[0] == last[..|parts[0]|];
          SliceExcludes(last, |parts[0]| + 1, |last|, ';');
          assert parts[1] == last[|parts[0]| + 1..];
        }
        TrimSpaceExcludes(parts[0], ';');
        TrimSpaceExcludes(parts[1], ';');
      }
    }
  }

  /** What `parseMediaType` returns for any header value: a trimmed media
      type and trimmed keys and values, none of them holding `;`. */
  lemma ParseMediaTypeTrimmed(contentType: string)
    ensures var mediaType := MediaTypeOf(Split(contentType, ';'));
      Trimmed(mediaType) && ';' !in mediaType
    ensures var params := ParamsOf(Split(contentType, ';'));
      forall key :: key in params ==>
        Trimmed(key) && ';' !in key && Trimmed(params[key]) && ';' !in params[key]
  {
    SplitExcludes(contentType, ';');
    ParsedPartsTrimmed(Split(contentType, ';'));
  }

  /** An empty header gives no media type and no parameters. */
  lemma EmptyHeader()
    ensures MediaTypeOf(Split("", ';')) == ""
    ensures ParamsOf(Split("", ';')) == map[]
  {
    assert Split("", ';') == [""];
  }

  // ---------------------------------------------------------------------
  // The request and its metadata
  // ---------------------------------------------------------------------

  /** What the HTTP round trip gives back. `body` is the table as the JSON
      decoder left it (possibly partly filled when decoding failed) and
      `decodeOk` says whether decoding succeeded. */
  datatype HttpOutcome =
    | RequestNotCreated(cause: Error)
    | TransportFailed(cause: Error)
    | Responded(
        status: string,
        contentTypeHeader: string,
        durationMs: int64,
        body: ExchangeRates,
        decodeOk: bool)

  /** `downloadRates`: no rates and no metadata when the request could not be
      made or sent; otherwise the decoded table and its metadata, and never an
      error, not even when the body was not valid JSON. */
  method DownloadRates(outcome: HttpOutcome)
    returns (rates: Option<ExchangeRates>, metadata: Option<RequestMetadata>, err: Option<Error>)
    ensures err.Some? <==> !outcome.Responded?
    ensures err.Some? ==> rates.None? && metadata.None?
    ensures outcome.RequestNotCreated? ==> err == Some(CreatingRequest(outcome.cause))
    ensures outcome.TransportFailed? ==> err == Some(GettingRates(outcome.cause))
    ensures outcome.Responded? ==>
      && rates == Some(outcome.body)
      && metadata.Some?
      && metadata.value.requestDuration == outcome.durationMs
      && metadata.value.responseHTTPCode == outcome.status
      && metadata.value.responseContentType == ContentTypePrefix + MediaType(outcome.contentTypeHeader)
      && (metadata.value.responseValidJSON <==> outcome.decodeOk)
  {
    var respValidJSON := true;
    match outcome
    case RequestNotCreated(cause) =>
      return None, None, Some(CreatingRequest(cause));
    case TransportFailed(cause) =>
      return None, None, Some(GettingRates(cause));
    case Responded(status, header, duration, body, decodeOk) =>
      var mediaType, _ := ParseMediaType(header);
      var contentType := ContentTypePrefix + mediaType;
      if !decodeOk {
        respValidJSON := false;
      }
      var m := RequestMetadata(duration, status, contentType, respValidJSON);
      return Some(body), Some(m), None;
  }

  /** `GetRates`: the downloaded table and metadata, or the zero values and
      the download error wrapped once more. */
  method GetRates(outcome: HttpOutcome)
    returns (rates: ExchangeRates, metadata: RequestMetadata, err: Option<Error>)
    ensures err.Some? <==> !outcome.Responded?
    ensures outcome.RequestNotCreated? ==>
      rates == ZeroRates && metadata == ZeroMetadata
      && err == Some(DownloadingRates(CreatingRequest(outcome.cause)))
    ensures outcome.TransportFailed? ==>
      rates == ZeroRates && metadata == ZeroMetadata
      && err == Some(DownloadingRates(GettingRates(outcome.cause)))
    ensures outcome.Responded? ==>
      && rates == outcome.body
      && metadata.requestDuration == outcome.durationMs
      && metadata.responseHTTPCode == outcome.status
      && metadata.responseContentType == ContentTypePrefix + MediaType(outcome.contentTypeHeader)
      && (metadata.responseValidJSON <==> outcome.decodeOk)
  {
    var result, meta, e := DownloadRates(outcome);
    if e.Some? {
      return ZeroRates, ZeroMetadata, Some(DownloadingRates(e.value));
    }
    return result.value, meta.value, None;
  }

  /** The content type in the metadata is the prefix followed by a trimmed
      media type without `;`; the header's parameters leave no trace in it. */
  lemma ContentTypeShape(header: string)
    ensures var ct := ContentTypePrefix + MediaType(header);
      && ct[..|ContentTypePrefix|] == ContentTypePrefix
      && Trimmed(ct[|ContentTypePrefix|..])
      && ';' !in ct[|ContentTypePrefix|..]
  {
    ParseMediaTypeTrimmed(header);
    var ct := ContentTypePrefix + MediaType(header);
    assert ct[|ContentTypePrefix|..] == MediaType(header);
  }
}
