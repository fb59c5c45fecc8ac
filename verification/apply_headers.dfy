/** Applying the response headers `Location`, `Last-Modified` and `ETag` to a
    resource, in that order: a later step overwrites what an earlier one set.
    The Location value has the form `{base}{type}/{id}[/_history/{vid}]`
    (section 7.1.2 of RFC 7231); an ETag is a possibly weak, quoted entity tag
    (section 2.3 of RFC 7232). */
module ResponseHeaders {
  import opened Wrappers
  import opened Resources
  import Strings

  // ---------------------------------------------------------------------
  // Location

  /** The Location step applies: the header is present, the resource has a
      server base, and the location lives on that server. */
  predicate LocationApplies(headers: map<string, string>, base: Option<string>) {
    "Location" in headers && base.Some? && Strings.HasPrefix(headers["Location"], base.value)
  }

  /** The location with every occurrence of the base removed, split on `/`. */
  function LocationPath(headers: map<string, string>, base: Option<string>): seq<string>
    requires LocationApplies(headers, base)
  {
    Strings.Split(Strings.RemoveAll(headers["Location"], base.value), '/')
  }

  /** The path names the resource's type and has an id segment. */
  predicate LocationMatches(path: seq<string>, resourceType: string) {
    |path| > 1 && path[0] == resourceType
  }

  /** The path carries `_history/{vid}` after the id. */
  predicate HasHistory(path: seq<string>) {
    |path| > 3 && path[2] == "_history"
  }

  function ApplyLocation(headers: map<string, string>, base: Option<string>, res: Resource)
    : (r: Result<Resource, FhirError>)
  {
    if !LocationApplies(headers, base) then Success(res)
    else
      var path := LocationPath(headers, base);
      if !LocationMatches(path, res.resourceType) then
        Failure(ResponseLocationHeaderResourceTypeMismatch(headers["Location"], res.resourceType))
      else
        var withId := res.(id := Some(path[1]));
        Success(if HasHistory(path) then withId.(meta := Some(MetaOrEmpty(res.meta).(versionId := Some(path[3]))))
                else withId)
  }

  // ---------------------------------------------------------------------
  // Last-Modified

  function ApplyLastModified(headers: map<string, string>, parseInstant: string -> Option<Instant>, res: Resource)
    : Resource
  {
    if "Last-Modified" in headers then
      res.(meta := Some(MetaOrEmpty(res.meta).(lastUpdated := parseInstant(headers["Last-Modified"]))))
    else res
  }

  // ---------------------------------------------------------------------
  // ETag

  /** An entity tag with at most one leading `W/`, then at most one leading
      `"`, then at most one trailing `"` removed. */
  function NormaliseETag(etag: string): (v: string)
    ensures |etag| - 4 <= |v| <= |etag|
    ensures !Strings.HasPrefix(etag, "W/") && !Strings.HasPrefix(etag, "\"") && !Strings.HasSuffix(etag, "\"")
            ==> v == etag
  {
    var e1 := if Strings.HasPrefix(etag, "W/") then etag[2..] else etag;
    var e2 := if Strings.HasPrefix(e1, "\"") then e1[1..] else e1;
    if Strings.HasSuffix(e2, "\"") then e2[..|e2| - 1] else e2
  }

  /** The tag is its normal form framed by the markers the three tests
      found: `W/` when the tag starts with it, then `"` when what is left
      starts with one, and `"` when what is left after that ends with one. */
  lemma ETagFraming(etag: string)
    ensures var weak := if Strings.HasPrefix(etag, "W/") then "W/" else "";
            var open := if Strings.HasPrefix(etag[|weak|..], "\"") then "\"" else "";
            var close := if Strings.HasSuffix(etag[|weak| + |open|..], "\"") then "\"" else "";
            etag == weak + open + NormaliseETag(etag) + close
  {
    var weak := if Strings.HasPrefix(etag, "W/") then "W/" else "";
    var e1 := etag[|weak|..];
    var open := if Strings.HasPrefix(e1, "\"") then "\"" else "";
    var e2 := e1[|open|..];
    var close := if Strings.HasSuffix(e2, "\"") then "\"" else "";
    var v := NormaliseETag(etag);
    assert etag[|weak| + |open|..] == e2;
    assert etag == weak + (open + (v + close)) by {
      StripFront(etag, weak);
      StripFront(e1, open);
      StripBack(e2, close);
      assert v == e2[..|e2| - |close|];
    }
    Regroup(weak, open, v, close);
  }

  lemma Regroup(a: string, b: string, c: string, d: string)
    ensures a + (b + (c + d)) == a + b + c + d
  {
  }

  /** A string with a given prefix is that prefix and the rest. */
  lemma StripFront(s: string, p: string)
    requires Strings.HasPrefix(s, p) || p == ""
    ensures |p| <= |s| && s == p + s[|p|..]
  {
    assert s[..|p|] == p;
  }

  /** A string with a given suffix is the rest and that suffix. */
  lemma StripBack(s: string, p: string)
    requires Strings.HasSuffix(s, p) || p == ""
    ensures |p| <= |s| && s == s[..|s| - |p|] + p
  {
    assert s[|s| - |p|..] == p;
  }

  function ApplyETag(headers: map<string, string>, res: Resource): Resource {
    if "ETag" in headers then
      res.(meta := Some(MetaOrEmpty(res.meta).(versionId := Some(NormaliseETag(headers["ETag"])))))
    else res
  }

  // ---------------------------------------------------------------------
  // All headers

  /** The version id the resource ends with when no ETag follows. */
  function VersionAfterLocation(headers: map<string, string>, base: Option<string>, res: Resource): Option<string> {
    if LocationApplies(headers, base) && HasHistory(LocationPath(headers, base)) then Some(LocationPath(headers, base)[3])
    else MetaOrEmpty(res.meta).versionId
  }

  /** Applies the Location, Last-Modified and ETag headers to `res`. Only a
      Location naming another resource type fails, and it fails before any
      field is written. */
  function ApplyHeaders(headers: map<string, string>, base: Option<string>,
                        parseInstant: string -> Option<Instant>, res: Resource)
    : (r: Result<Resource, FhirError>)
    ensures r.Failure? <==> LocationApplies(headers, base)
                            && !LocationMatches(LocationPath(headers, base), res.resourceType)
    ensures r.Failure? ==> r.error == ResponseLocationHeaderResourceTypeMismatch(headers["Location"], res.resourceType)
    // only `id` and `meta` change
    ensures r.Success? ==> r.value == res.(id := r.value.id, meta := r.value.meta)
    ensures r.Success? ==> r.value.id == (if LocationApplies(headers, base) then Some(LocationPath(headers, base)[1]) else res.id)
    // ETag is applied last and wins; otherwise a `_history` segment sets the version
    ensures r.Success? && "ETag" in headers ==>
              r.value.meta.Some? && r.value.meta.value.versionId == Some(NormaliseETag(headers["ETag"]))
    ensures r.Success? && "ETag" !in headers ==>
              MetaOrEmpty(r.value.meta).versionId == VersionAfterLocation(headers, base, res)
    // Last-Modified always overwrites, with none for an unparseable date
    ensures r.Success? && "Last-Modified" in headers ==>
              r.value.meta.Some? && r.value.meta.value.lastUpdated == parseInstant(headers["Last-Modified"])
    ensures r.Success? && "Last-Modified" !in headers ==>
              MetaOrEmpty(r.value.meta).lastUpdated == MetaOrEmpty(res.meta).lastUpdated
    // `meta` is left exactly as it was when no step writes to it
    ensures r.Success? && "ETag" !in headers && "Last-Modified" !in headers
            && !(LocationApplies(headers, base) && HasHistory(LocationPath(headers, base))) ==>
              r.value.meta == res.meta
  {
    match ApplyLocation(headers, base, res)
    case Failure(e) => Failure(e)
    case Success(r1) => Success(ApplyETag(headers, ApplyLastModified(headers, parseInstant, r1)))
  }

  // ---------------------------------------------------------------------
  // Properties

  /** A quoted value `"v"` loses exactly its two quotes. */
  lemma QuotedStripped(v: string)
    ensures var q := "\"" + v + "\"";
            && Strings.HasPrefix(q, "\"") && q[1..] == v + "\""
            && Strings.HasSuffix(v + "\"", "\"") && (v + "\"")[..|v|] == v
  {
    var q := "\"" + v + "\"";
    assert q[..1] == "\"";
    assert q[1..] == v + "\"";
    assert (v + "\"")[|v|..] == "\"";
  }

  /** A strong entity tag `"v"` normalises to `v`. */
  lemma StrongETagRoundTrip(v: string)
    ensures NormaliseETag("\"" + v + "\"") == v
  {
    var q := "\"" + v + "\"";
    QuotedStripped(v);
    assert q[0] == '"';
    assert !Strings.HasPrefix(q, "W/") by {
      assert q[..2][0] == '"';
    }
  }

  /** A weak entity tag `W/"v"` normalises to `v`. */
  lemma WeakETagRoundTrip(v: string)
    ensures NormaliseETag("W/\"" + v + "\"") == v
  {
    var q := "\"" + v + "\"";
    var e := "W/\"" + v + "\"";
    assert e == "W/" + q;
    assert e[..2] == "W/";
    assert e[2..] == q;
    QuotedStripped(v);
  }

  /** A weak tag without quotes, `W/v`, normalises to `v`. */
  lemma WeakUnquotedETag(v: string)
    requires !Strings.HasPrefix(v, "\"") && !Strings.HasSuffix(v, "\"")
    ensures NormaliseETag("W/" + v) == v
  {
    var e := "W/" + v;
    assert e[..2] == "W/";
    assert e[2..] == v;
  }

  /** A tag with only an opening quote, `"v`, normalises to `v`. */
  lemma OpenQuoteOnlyETag(v: string)
    requires !Strings.HasSuffix(v, "\"")
    ensures NormaliseETag("\"" + v) == v
  {
    var e := "\"" + v;
    assert !Strings.HasPrefix(e, "W/") by {
      if |e| >= 2 {
        assert e[..2][0] == '"';
      }
    }
    assert e[..1] == "\"";
    assert e[1..] == v;
  }

  /** A tag with only a closing quote, `v"`, normalises to `v`. */
  lemma CloseQuoteOnlyETag(v: string)
    requires !Strings.HasPrefix(v, "W/") && !Strings.HasPrefix(v, "\"")
    ensures NormaliseETag(v + "\"") == v
  {
    var e := v + "\"";
    if |v| == 0 {
      assert e == "\"";
    } else {
      assert !Strings.HasPrefix(e, "W/") by {
        if |v| >= 2 {
          assert e[..2] == v[..2];
        } else {
          assert e[..2][1] == '"';
        }
      }
      assert !Strings.HasPrefix(e, "\"") by {
        assert e[..1] == v[..1];
      }
      assert e[|e| - 1..] == "\"";
      assert e[..|e| - 1] == v;
    }
  }

  /** Only one quote is removed at each end. */
  lemma ETagStripsOneQuoteEachEnd()
    ensures NormaliseETag("W/\"\"9\"\"") == "\"9\""
  {
    WeakETagRoundTrip("\"9\"");
    assert "W/\"" + "\"9\"" + "\"" == "W/\"\"9\"\"";
  }

  /** The path `{type}/{id}/_history/{vid}` splits into its four segments. */
  lemma HistoryPathSegments(tp: string, id: string, vid: string)
    requires '/' !in tp && '/' !in id && '/' !in vid
    ensures Strings.Split(tp + "/" + id + "/_history/" + vid, '/') == [tp, id, "_history", vid]
  {
    var parts := [tp, id, "_history", vid];
    Strings.JoinCons("_history", [vid], '/');
    Strings.JoinCons(id, ["_history", vid], '/');
    Strings.JoinCons(tp, [id, "_history", vid], '/');
    assert [tp] + [id, "_history", vid] == parts;
    assert Strings.Join(parts, '/') == tp + "/" + (id + "/" + ("_history" + "/" + vid));
    assert tp + "/" + id + "/_history/" + vid == tp + "/" + (id + "/" + ("_history" + "/" + vid));
    assert '/' !in "_history";
    Strings.SplitJoin(parts, '/');
  }

  /** Removing the base from a location made of the base and a path that
      lacks one of the base's characters leaves the path. */
  lemma StripBase(base: string, path: string, marker: char)
    requires marker in base && marker !in path
    ensures Strings.HasPrefix(base + path, base)
    ensures Strings.RemoveAll(base + path, base) == path
  {
    assert (base + path)[..|base|] == base;
    Strings.RemoveAllPrefix(base, path);
    Strings.RemoveAllAbsent(path, base, marker);
  }

  /** With neither Last-Modified nor ETag present, a Location whose path is
      `{type}/{id}/_history/{vid}` for the resource's own type sets exactly
      `id` and `versionId`. */
  lemma HistoryPathApplied(headers: map<string, string>, base: string,
                           parseInstant: string -> Option<Instant>, res: Resource, id: string, vid: string)
    requires "Last-Modified" !in headers && "ETag" !in headers
    requires LocationApplies(headers, Some(base))
    requires LocationPath(headers, Some(base)) == [res.resourceType, id, "_history", vid]
    ensures ApplyHeaders(headers, Some(base), parseInstant, res)
            == Success(res.(id := Some(id), meta := Some(MetaOrEmpty(res.meta).(versionId := Some(vid)))))
  {
  }

  /** As above for a path `{type}/{id}`: only `id` is set. */
  lemma TypeIdPathApplied(headers: map<string, string>, base: string,
                          parseInstant: string -> Option<Instant>, res: Resource, id: string)
    requires "Last-Modified" !in headers && "ETag" !in headers
    requires LocationApplies(headers, Some(base))
    requires LocationPath(headers, Some(base)) == [res.resourceType, id]
    ensures ApplyHeaders(headers, Some(base), parseInstant, res) == Success(res.(id := Some(id)))
  {
  }

  /** A Location `{base}{type}/{id}/_history/{vid}` for the resource's own
      type sets `id` and `versionId` and nothing else (here `marker` is a
      character of the base that the path does not use, so the base occurs
      only at the front). */
  lemma LocationWithHistoryRoundTrip(base: string, res: Resource, id: string, vid: string,
                                     parseInstant: string -> Option<Instant>, marker: char)
    requires '/' !in res.resourceType && '/' !in id && '/' !in vid
    requires marker in base && marker !in res.resourceType + "/" + id + "/_history/" + vid
    ensures ApplyHeaders(map["Location" := base + res.resourceType + "/" + id + "/_history/" + vid],
                         Some(base), parseInstant, res)
            == Success(res.(id := Some(id), meta := Some(MetaOrEmpty(res.meta).(versionId := Some(vid)))))
  {
    var path := res.resourceType + "/" + id + "/_history/" + vid;
    var loc := base + res.resourceType + "/" + id + "/_history/" + vid;
    assert loc == base + path;
    var headers := map["Location" := loc];
    StripBase(base, path, marker);
    HistoryPathSegments(res.resourceType, id, vid);
    assert LocationPath(headers, Some(base)) == [res.resourceType, id, "_history", vid];
    HistoryPathApplied(headers, base, parseInstant, res, id, vid);
  }

  /** A Location `{base}{type}/{id}` sets `id` and leaves `meta` alone. */
  lemma LocationWithoutHistoryRoundTrip(base: string, res: Resource, id: string,
                                        parseInstant: string -> Option<Instant>, marker: char)
    requires '/' !in res.resourceType && '/' !in id
    requires marker in base && marker !in res.resourceType + "/" + id
    ensures ApplyHeaders(map["Location" := base + res.resourceType + "/" + id], Some(base), parseInstant, res)
            == Success(res.(id := Some(id)))
  {
    var path := res.resourceType + "/" + id;
    var loc := base + res.resourceType + "/" + id;
    assert loc == base + path;
    var headers := map["Location" := loc];
    StripBase(base, path, marker);
    TypeIdSegments(res.resourceType, id);
    assert LocationPath(headers, Some(base)) == [res.resourceType, id];
    TypeIdPathApplied(headers, base, parseInstant, res, id);
  }

  /** The path `{type}/{id}` splits into its two segments. */
  lemma TypeIdSegments(tp: string, id: string)
    requires '/' !in tp && '/' !in id
    ensures Strings.Split(tp + "/" + id, '/') == [tp, id]
  {
    Strings.JoinCons(tp, [id], '/');
    assert [tp] + [id] == [tp, id];
    Strings.SplitJoin([tp, id], '/');
  }

  /** A Location naming another resource type fails with the mismatch error. */
  lemma LocationTypeMismatch(base: string, res: Resource, other: string, id: string,
                             parseInstant: string -> Option<Instant>, marker: char)
    requires '/' !in other && '/' !in id && other != res.resourceType
    requires marker in base && marker !in other + "/" + id
    ensures ApplyHeaders(map["Location" := base + other + "/" + id], Some(base), parseInstant, res)
            == Failure(ResponseLocationHeaderResourceTypeMismatch(base + other + "/" + id, res.resourceType))
  {
    var path := other + "/" + id;
    var loc := base + other + "/" + id;
    assert loc == base + path;
    var headers := map["Location" := loc];
    StripBase(base, path, marker);
    TypeIdSegments(other, id);
    assert LocationPath(headers, Some(base)) == [other, id];
  }

  /** Without a server base the Location header is ignored. */
  lemma LocationIgnoredWithoutBase(location: string, parseInstant: string -> Option<Instant>, res: Resource)
    ensures ApplyHeaders(map["Location" := location], None, parseInstant, res) == Success(res)
  {
  }

  // The examples below take their string literals as parameters fixed by
  // `requires`, so that the verifier does not unfold `RemoveAll` and
  // `Split` character by character on literal arguments.

  /** The Location of a created Patient, `https://host/Patient/42/_history/7`
      on base `https://host/`, has the path `Patient/42/_history/7`. */
  lemma CreatedPatientPath(location: string, base: string, tp: string, id: string, vid: string)
    requires location == "https://host/Patient/42/_history/7" && base == "https://host/"
    requires tp == "Patient" && id == "42" && vid == "7"
    ensures LocationApplies(map["Location" := location], Some(base))
    ensures LocationPath(map["Location" := location], Some(base)) == [tp, id, "_history", vid]
  {
    var path := tp + "/" + id + "/_history/" + vid;
    assert path == "Patient/42/_history/7" && ':' !in path;
    assert '/' !in tp && '/' !in id && '/' !in vid;
    assert location == base + path by {
      assert "https://host/" + "Patient/42/_history/7" == "https://host/Patient/42/_history/7";
    }
    assert ':' in base;
    StripBase(base, path, ':');
    HistoryPathSegments(tp, id, vid);
  }

  /** A created Patient: Location `https://host/Patient/42/_history/7` on
      base `https://host/` gives id `42` and version `7`. */
  lemma CreatedPatientExample(location: string, base: string, res: Resource,
                              parseInstant: string -> Option<Instant>)
    requires location == "https://host/Patient/42/_history/7" && base == "https://host/"
    requires res.resourceType == "Patient"
    ensures var r := ApplyHeaders(map["Location" := location], Some(base), parseInstant, res);
            r.Success? && r.value.id == Some("42") && r.value.meta.Some? && r.value.meta.value.versionId == Some("7")
  {
    CreatedPatientPath(location, base, res.resourceType, "42", "7");
    HistoryPathApplied(map["Location" := location], base, parseInstant, res, "42", "7");
  }

  /** With both a Location carrying `_history/7` and an ETag `"9"`, the ETag
      wins: the version ends as `9`, the id is still taken from Location. */
  lemma ETagWinsOverHistory(location: string, etag: string, base: string, res: Resource,
                            parseInstant: string -> Option<Instant>)
    requires location == "https://host/Patient/42/_history/7" && etag == "\"9\"" && base == "https://host/"
    requires res.resourceType == "Patient"
    ensures var r := ApplyHeaders(map["Location" := location, "ETag" := etag], Some(base), parseInstant, res);
            r.Success? && r.value.id == Some("42") && r.value.meta.Some? && r.value.meta.value.versionId == Some("9")
  {
    var headers := map["Location" := location, "ETag" := etag];
    var single := map["Location" := location];
    CreatedPatientExample(location, base, res, parseInstant);
    assert ApplyLocation(headers, Some(base), res) == ApplyLocation(single, Some(base), res);
    StrongETagRoundTrip("9");
    assert "\"" + "9" + "\"" == etag;
  }

  /** The weak ETag the mock server sends on a read, `W/"1339"`, yields
      version `1339`. */
  lemma WeakETagExample(res: Resource, parseInstant: string -> Option<Instant>)
    ensures var r := ApplyHeaders(map["ETag" := "W/\"1339\""], None, parseInstant, res);
            r.Success? && r.value.meta.Some? && r.value.meta.value.versionId == Some("1339")
  {
    WeakETagRoundTrip("1339");
    assert "W/\"" + "1339" + "\"" == "W/\"1339\"";
  }
}
