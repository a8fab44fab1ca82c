/**
 The `fastlylogging` package (default.go): a fixed catalog of named logging
 fields, each with its default Fastly VCL log-format template, and the
 resolver that picks the templates for a caller's list of field names.
 */
module FastlyLogging {
  import opened Ascii
  import opened StringOrder
  import opened StringsUtil

  datatype Option<T> = None | Some(value: T)

  /** The one error the resolver reports: the requested names it could not
      resolve, trimmed, without duplicates and in ascending order. */
  datatype FormatError = UnknownFields(names: seq<string>)

  // Field names and their default templates.
  const FieldTimestamp: string := "timestamp"
  const FieldTimestampDefault: string := @"%{strftime(\{""%Y-%m-%dT%H:%M:%S%z""\}, time.start)}V"
  const FieldServiceID: string := "service_id"
  const FieldServiceIDDefault: string := "%{req.service_id}V"
  const FieldTimeElapsed: string := "time_elapsed"
  const FieldTimeElapsedDefault: string := "%{time.elapsed.usec}V"
  const FieldClientIP: string := "client_ip"
  const FieldClientIPDefault: string := "%{req.http.Fastly-Client-IP}V"
  const FieldGeoCountry: string := "geo_country"
  const FieldGeoCountryDefault: string := "%{client.geo.country_name}V"
  const FieldGeoCity: string := "geo_city"
  const FieldGeoCityDefault: string := "%{client.geo.city}V"
  const FieldHost: string := "host"
  const FieldHostDefault: string := "%{if(req.http.Fastly-Orig-Host, req.http.Fastly-Orig-Host, req.http.Host)}V"
  const FieldURL: string := "url"
  const FieldURLDefault: string := "%{json.escape(req.url)}V"
  const FieldRequest: string := "request"
  const FieldRequestDefault: string := "%{req.request}V"
  const FieldRequestMethod: string := "request_method"
  const FieldRequestMethodDefault: string := "%{json.escape(req.method)}V"
  const FieldRequestProtocol: string := "request_protocol"
  const FieldRequestProtocolDefault: string := "%{json.escape(req.proto)}V"
  const FieldRequestReferer: string := "request_referer"
  const FieldRequestRefererDefault: string := "%{json.escape(req.http.referer)}V"
  const FieldRequestUserAgent: string := "request_user_agent"
  const FieldRequestUserAgentDefault: string := "%{json.escape(req.http.User-Agent)}V"
  const FieldResponse: string := "response"
  const FieldResponseDefault: string := "%{resp.response}V"
  const FieldResponseState: string := "response_state"
  const FieldResponseStateDefault: string := "%{json.escape(fastly_info.state)}V"
  const FieldResponseStatus: string := "response_status"
  const FieldResponseStatusDefault: string := "%{resp.status}V"
  const FieldResponseReason: string := "response_reason"
  const FieldResponseReasonDefault: string := @"%{if(resp.response, ""%22""+json.escape(resp.response)+""%22"", ""null"")}V"
  const FieldResponseBodySize: string := "response_body_size"
  const FieldResponseBodySizeDefault: string := "%{resp.body_bytes_written}V"
  const FieldFastlyServer: string := "fastly_server"
  const FieldFastlyServerDefault: string := "%{json.escape(server.identity)}V"
  const FieldFastlyServerDatacenter: string := "server_datacenter"
  const FieldFastlyServerDatacenterDefault: string := "%{server.datacenter}V"
  const FieldFastlyIsEdge: string := "fastly_is_edge"
  const FieldFastlyIsEdgeDefault: string := @"%{if(fastly.ff.visits_this_service == 0, ""true"", ""false"")}V"
  const FieldFastlyCacheState: string := "fastly_cache_state"
  const FieldFastlyCacheStateDefault: string := "%{fastly_info.state}V"
  const FieldWAFBlock: string := "waf_block"
  const FieldWAFBlockDefault: string := "%{req.http.X-Waf-Block}V"
  const FieldWAFBlockID: string := "waf_block_id"
  const FieldWAFBlockIDDefault: string := "%{req.http.X-Waf-Block-Id}V"

  /** The canonical form of a requested name: trimmed, then lower-cased. */
  function Canonical(field: string): (c: string)
    ensures IsTrimmed(c) && HasNoUpper(c)
    ensures c == "" <==> TrimSpace(field) == ""
  {
    ToLower(TrimSpace(field))
  }

  /** Trimming first does not change the canonical form. */
  lemma CanonicalOfTrimmed(field: string)
    ensures Canonical(TrimSpace(field)) == Canonical(field)
  {
    TrimSpaceIdempotent(field);
  }

  /** Canonicalising a canonical name changes nothing. */
  lemma CanonicalIdempotent(field: string)
    ensures Canonical(Canonical(field)) == Canonical(field)
  {
    var c := Canonical(field);
    assert TrimSpace(c) == c;
    ToLowerFixedPoint(c);
  }

  /** Lower-case letters and underscores: the spelling of every catalog key. */
  predicate IsFieldName(s: string) {
    s != [] && forall i :: 0 <= i < |s| ==> ('a' <= s[i] <= 'z' || s[i] == '_')
  }

  lemma FieldNameIsCanonical(s: string)
    requires IsFieldName(s)
    ensures Canonical(s) == s
  {
    assert TrimSpace(s) == s;
    Alphabets();
    assert HasNoUpper(s);
    ToLowerFixedPoint(s);
  }

  // The catalog keys are spelt in lower case, four at a time.
  lemma FieldNamesLowerCase1()
    ensures IsFieldName(FieldTimestamp)
      && IsFieldName(FieldServiceID)
      && IsFieldName(FieldTimeElapsed)
      && IsFieldName(FieldClientIP)
  {
  }

  lemma FieldNamesLowerCase2()
    ensures IsFieldName(FieldGeoCountry)
      && IsFieldName(FieldGeoCity)
      && IsFieldName(FieldHost)
      && IsFieldName(FieldURL)
  {
  }

  lemma FieldNamesLowerCase3()
    ensures IsFieldName(FieldRequest)
      && IsFieldName(FieldRequestMethod)
      && IsFieldName(FieldRequestProtocol)
      && IsFieldName(FieldRequestReferer)
  {
  }

  lemma FieldNamesLowerCase4()
    ensures IsFieldName(FieldRequestUserAgent)
      && IsFieldName(FieldResponse)
      && IsFieldName(FieldResponseState)
      && IsFieldName(FieldResponseStatus)
  {
  }

  lemma FieldNamesLowerCase5()
    ensures IsFieldName(FieldResponseReason)
      && IsFieldName(FieldResponseBodySize)
      && IsFieldName(FieldFastlyServer)
      && IsFieldName(FieldFastlyIsEdge)
  {
  }

  lemma FieldNamesLowerCase6()
    ensures IsFieldName(FieldFastlyServerDatacenter)
      && IsFieldName(FieldFastlyCacheState)
      && IsFieldName(FieldWAFBlock)
      && IsFieldName(FieldWAFBlockID)
  {
  }

  /** `KnownFieldsDefaultMap`: the catalog, from field name to default template.
      Every key is a field name spelt in lower-case letters and underscores. */
  function KnownFieldsDefaultMap(): (m: map<string, string>)
    ensures forall k :: k in m ==> IsFieldName(k)
  {
    FieldNamesLowerCase1();
    FieldNamesLowerCase2();
    FieldNamesLowerCase3();
    FieldNamesLowerCase4();
    FieldNamesLowerCase5();
    FieldNamesLowerCase6();
    map[
      FieldTimestamp := FieldTimestampDefault,
      FieldServiceID := FieldServiceIDDefault,
      FieldTimeElapsed := FieldTimeElapsedDefault,
      FieldClientIP := FieldClientIPDefault,
      FieldGeoCountry := FieldGeoCountryDefault,
      FieldGeoCity := FieldGeoCityDefault,
      FieldHost := FieldHostDefault,
      FieldURL := FieldURLDefault,
      FieldRequest := FieldRequestDefault,
      FieldRequestMethod := FieldRequestMethodDefault,
      FieldRequestProtocol := FieldRequestProtocolDefault,
      FieldRequestReferer := FieldRequestRefererDefault,
      FieldRequestUserAgent := FieldRequestUserAgentDefault,
      FieldResponse := FieldResponseDefault,
      FieldResponseState := FieldResponseStateDefault,
      FieldResponseStatus := FieldResponseStatusDefault,
      FieldResponseReason := FieldResponseReasonDefault,
      FieldResponseBodySize := FieldResponseBodySizeDefault,
      FieldFastlyServer := FieldFastlyServerDefault,
      FieldFastlyIsEdge := FieldFastlyIsEdgeDefault,
      FieldFastlyServerDatacenter := FieldFastlyServerDatacenterDefault,
      FieldFastlyCacheState := FieldFastlyCacheStateDefault,
      FieldWAFBlock := FieldWAFBlockDefault,
      FieldWAFBlockID := FieldWAFBlockIDDefault
    ]
  }

  // The catalog in four parts of six entries each. Counting the entries of
  // each part, and checking that no two parts share a name, is how the size
  // of the whole catalog is established.

  /** `m` with the entries of part 1 of the catalog added. */
  ghost function WithCatalogPart1(m: map<string, string>): map<string, string> {
    m
      [FieldTimestamp := FieldTimestampDefault]
      [FieldServiceID := FieldServiceIDDefault]
      [FieldTimeElapsed := FieldTimeElapsedDefault]
      [FieldClientIP := FieldClientIPDefault]
      [FieldGeoCountry := FieldGeoCountryDefault]
      [FieldGeoCity := FieldGeoCityDefault]
  }

  /** `m` with the entries of part 2 of the catalog added. */
  ghost function WithCatalogPart2(m: map<string, string>): map<string, string> {
    m
      [FieldHost := FieldHostDefault]
      [FieldURL := FieldURLDefault]
      [FieldRequest := FieldRequestDefault]
      [FieldRequestMethod := FieldRequestMethodDefault]
      [FieldRequestProtocol := FieldRequestProtocolDefault]
      [FieldRequestReferer := FieldRequestRefererDefault]
  }

  /** `m` with the entries of part 3 of the catalog added. */
  ghost function WithCatalogPart3(m: map<string, string>): map<string, string> {
    m
      [FieldRequestUserAgent := FieldRequestUserAgentDefault]
      [FieldResponse := FieldResponseDefault]
      [FieldResponseState := FieldResponseStateDefault]
      [FieldResponseStatus := FieldResponseStatusDefault]
      [FieldResponseReason := FieldResponseReasonDefault]
      [FieldResponseBodySize := FieldResponseBodySizeDefault]
  }

  /** `m` with the entries of part 4 of the catalog added. */
  ghost function WithCatalogPart4(m: map<string, string>): map<string, string> {
    m
      [FieldFastlyServer := FieldFastlyServerDefault]
      [FieldFastlyIsEdge := FieldFastlyIsEdgeDefault]
      [FieldFastlyServerDatacenter := FieldFastlyServerDatacenterDefault]
      [FieldFastlyCacheState := FieldFastlyCacheStateDefault]
      [FieldWAFBlock := FieldWAFBlockDefault]
      [FieldWAFBlockID := FieldWAFBlockIDDefault]
  }

  /** Adding part 1 to a map that holds none of its names adds six entries. */
  lemma AddCatalogPart1(m: map<string, string>)
    requires m.Keys !! WithCatalogPart1(map[]).Keys
    ensures |WithCatalogPart1(m)| == |m| + 6
    ensures WithCatalogPart1(m).Keys == m.Keys + WithCatalogPart1(map[]).Keys
  {
    var m' := m;
    assert FieldTimestamp in WithCatalogPart1(map[]) && FieldTimestamp !in m';
    m' := m'[FieldTimestamp := FieldTimestampDefault];
    assert FieldServiceID in WithCatalogPart1(map[]) && FieldServiceID !in m';
    m' := m'[FieldServiceID := FieldServiceIDDefault];
    assert FieldTimeElapsed in WithCatalogPart1(map[]) && FieldTimeElapsed !in m';
    m' := m'[FieldTimeElapsed := FieldTimeElapsedDefault];
    assert FieldClientIP in WithCatalogPart1(map[]) && FieldClientIP !in m';
    m' := m'[FieldClientIP := FieldClientIPDefault];
    assert FieldGeoCountry in WithCatalogPart1(map[]) && FieldGeoCountry !in m';
    m' := m'[FieldGeoCountry := FieldGeoCountryDefault];
    assert FieldGeoCity in WithCatalogPart1(map[]) && FieldGeoCity !in m';
    m' := m'[FieldGeoCity := FieldGeoCityDefault];
  }

  /** Adding part 2 to a map that holds none of its names adds six entries. */
  lemma AddCatalogPart2(m: map<string, string>)
    requires m.Keys !! WithCatalogPart2(map[]).Keys
    ensures |WithCatalogPart2(m)| == |m| + 6
    ensures WithCatalogPart2(m).Keys == m.Keys + WithCatalogPart2(map[]).Keys
  {
    var m' := m;
    assert FieldHost in WithCatalogPart2(map[]) && FieldHost !in m';
    m' := m'[FieldHost := FieldHostDefault];
    assert FieldURL in WithCatalogPart2(map[]) && FieldURL !in m';
    m' := m'[FieldURL := FieldURLDefault];
    assert FieldRequest in WithCatalogPart2(map[]) && FieldRequest !in m';
    m' := m'[FieldRequest := FieldRequestDefault];
    assert FieldRequestMethod in WithCatalogPart2(map[]) && FieldRequestMethod !in m';
    m' := m'[FieldRequestMethod := FieldRequestMethodDefault];
    assert FieldRequestProtocol in WithCatalogPart2(map[]) && FieldRequestProtocol !in m';
    m' := m'[FieldRequestProtocol := FieldRequestProtocolDefault];
    assert FieldRequestReferer in WithCatalogPart2(map[]) && FieldRequestReferer !in m';
    m' := m'[FieldRequestReferer := FieldRequestRefererDefault];
  }

  /** Adding part 3 to a map that holds none of its names adds six entries. */
  lemma AddCatalogPart3(m: map<string, string>)
    requires m.Keys !! WithCatalogPart3(map[]).Keys
    ensures |WithCatalogPart3(m)| == |m| + 6
    ensures WithCatalogPart3(m).Keys == m.Keys + WithCatalogPart3(map[]).Keys
  {
    var m' := m;
    assert FieldRequestUserAgent in WithCatalogPart3(map[]) && FieldRequestUserAgent !in m';
    m' := m'[FieldRequestUserAgent := FieldRequestUserAgentDefault];
    assert FieldResponse in WithCatalogPart3(map[]) && FieldResponse !in m';
    m' := m'[FieldResponse := FieldResponseDefault];
    assert FieldResponseState in WithCatalogPart3(map[]) && FieldResponseState !in m';
    m' := m'[FieldResponseState := FieldResponseStateDefault];
    assert FieldResponseStatus in WithCatalogPart3(map[]) && FieldResponseStatus !in m';
    m' := m'[FieldResponseStatus := FieldResponseStatusDefault];
    assert FieldResponseReason in WithCatalogPart3(map[]) && FieldResponseReason !in m';
    m' := m'[FieldResponseReason := FieldResponseReasonDefault];
    assert FieldResponseBodySize in WithCatalogPart3(map[]) && FieldResponseBodySize !in m';
    m' := m'[FieldResponseBodySize := FieldResponseBodySizeDefault];
  }

  /** Adding part 4 to a map that holds none of its names adds six entries. */
  lemma AddCatalogPart4(m: map<string, string>)
    requires m.Keys !! WithCatalogPart4(map[]).Keys
    ensures |WithCatalogPart4(m)| == |m| + 6
    ensures WithCatalogPart4(m).Keys == m.Keys + WithCatalogPart4(map[]).Keys
  {
    var m' := m;
    assert FieldFastlyServer in WithCatalogPart4(map[]) && FieldFastlyServer !in m';
    m' := m'[FieldFastlyServer := FieldFastlyServerDefault];
    assert FieldFastlyIsEdge in WithCatalogPart4(map[]) && FieldFastlyIsEdge !in m';
    m' := m'[FieldFastlyIsEdge := FieldFastlyIsEdgeDefault];
    assert FieldFastlyServerDatacenter in WithCatalogPart4(map[]) && FieldFastlyServerDatacenter !in m';
    m' := m'[FieldFastlyServerDatacenter := FieldFastlyServerDatacenterDefault];
    assert FieldFastlyCacheState in WithCatalogPart4(map[]) && FieldFastlyCacheState !in m';
    m' := m'[FieldFastlyCacheState := FieldFastlyCacheStateDefault];
    assert FieldWAFBlock in WithCatalogPart4(map[]) && FieldWAFBlock !in m';
    m' := m'[FieldWAFBlock := FieldWAFBlockDefault];
    assert FieldWAFBlockID in WithCatalogPart4(map[]) && FieldWAFBlockID !in m';
    m' := m'[FieldWAFBlockID := FieldWAFBlockIDDefault];
  }

  // No name belongs to two parts.
  lemma CatalogParts12Disjoint()
    ensures WithCatalogPart1(map[]).Keys !! WithCatalogPart2(map[]).Keys
  {
  }

  lemma CatalogParts13Disjoint()
    ensures WithCatalogPart1(map[]).Keys !! WithCatalogPart3(map[]).Keys
  {
  }

  lemma CatalogParts14Disjoint()
    ensures WithCatalogPart1(map[]).Keys !! WithCatalogPart4(map[]).Keys
  {
  }

  lemma CatalogParts23Disjoint()
    ensures WithCatalogPart2(map[]).Keys !! WithCatalogPart3(map[]).Keys
  {
  }

  lemma CatalogParts24Disjoint()
    ensures WithCatalogPart2(map[]).Keys !! WithCatalogPart4(map[]).Keys
  {
  }

  lemma CatalogParts34Disjoint()
    ensures WithCatalogPart3(map[]).Keys !! WithCatalogPart4(map[]).Keys
  {
  }

  /** The catalog is its four parts, added one after the other. */
  lemma CatalogInParts()
    ensures KnownFieldsDefaultMap()
      == WithCatalogPart4(WithCatalogPart3(WithCatalogPart2(WithCatalogPart1(map[]))))
  {
  }

  lemma CatalogPartsSize()
    ensures |WithCatalogPart4(WithCatalogPart3(WithCatalogPart2(WithCatalogPart1(map[]))))| == 24
  {
    var p1, p2, p3 := WithCatalogPart1(map[]), WithCatalogPart2(map[]), WithCatalogPart3(map[]);
    AddCatalogPart1(map[]);
    var m1 := WithCatalogPart1(map[]);
    assert m1.Keys == p1.Keys;
    CatalogParts12Disjoint();
    AddCatalogPart2(m1);
    var m2 := WithCatalogPart2(m1);
    assert m2.Keys == p1.Keys + p2.Keys;
    CatalogParts13Disjoint();
    CatalogParts23Disjoint();
    AddCatalogPart3(m2);
    var m3 := WithCatalogPart3(m2);
    assert m3.Keys == p1.Keys + p2.Keys + p3.Keys;
    CatalogParts14Disjoint();
    CatalogParts24Disjoint();
    CatalogParts34Disjoint();
    AddCatalogPart4(m3);
  }

  /** The catalog holds 24 different field names. */
  lemma CatalogSize()
    ensures |KnownFieldsDefaultMap()| == 24
  {
    CatalogInParts();
    CatalogPartsSize();
  }

  lemma FieldNamesAreCanonical(names: set<string>)
    requires forall k :: k in names ==> IsFieldName(k)
    ensures forall k :: k in names ==> k != "" && Canonical(k) == k
  {
    forall k | k in names ensures Canonical(k) == k {
      FieldNameIsCanonical(k);
    }
  }

  /** Every catalog key is spelt in canonical form, so a canonicalised
      request can be looked up directly. */
  lemma CatalogKeysCanonical()
    ensures KeysCanonical(KnownFieldsDefaultMap())
  {
    FieldNamesAreCanonical(KnownFieldsDefaultMap().Keys);
  }

  /** `KnownFields`: every catalog key exactly once, in ascending order. */
  method KnownFields() returns (fields: seq<string>)
    ensures Elems(fields) == KnownFieldsDefaultMap().Keys
    ensures StrictlySorted(fields)
    ensures |fields| == |KnownFieldsDefaultMap()| == 24
  {
    fields := SortedKeys(KnownFieldsDefaultMap());
    CatalogSize();
  }

  /** The body of `KnownFields` for a given map: collects the keys one by one,
      in whatever order the map yields them, then sorts them. */
  method SortedKeys(fieldsMap: map<string, string>) returns (fields: seq<string>)
    ensures Elems(fields) == fieldsMap.Keys
    ensures StrictlySorted(fields)
    ensures |fields| == |fieldsMap|
  {
    fields := [];
    var rest := fieldsMap.Keys;
    while rest != {}
      invariant Elems(fields) + rest == fieldsMap.Keys
      invariant Elems(fields) !! rest
      invariant NoDuplicates(fields)
      invariant |fields| + |rest| == |fieldsMap|
      decreases rest
    {
      var k :| k in rest;
      AppendFresh(fields, k);
      fields := fields + [k];
      rest := rest - {k};
    }
    SortDistinct(fields);
    fields := Sort(fields);
  }

  // What a request resolves to, stated on sets of names for any catalog
  // `known` and any canonicalisation `canon`: a name resolves when its
  // canonical form is a key of `known`; a name whose canonical form is empty
  // is skipped.

  /** The names a request stands for: the trimmed forms of its non-blank
      entries, or every key of `known` when there are none. */
  ghost function Requested(known: map<string, string>, fields: seq<string>): set<string> {
    if TrimmedNonBlank(fields) == {} then known.Keys else TrimmedNonBlank(fields)
  }

  /** The catalog keys that the names in `names` resolve to. */
  ghost function ResolvedNames(known: map<string, string>, canon: string -> string, names: set<string>): set<string> {
    set n | n in names && canon(n) != "" && canon(n) in known :: canon(n)
  }

  /** The format for `names`: each resolved key with its catalog template. */
  ghost function ResolvedFormat(known: map<string, string>, canon: string -> string, names: set<string>): (format: map<string, string>)
    ensures forall k :: k in format ==> k in known && format[k] == known[k]
  {
    map k | k in ResolvedNames(known, canon, names) :: known[k]
  }

  /** The names in `names` that resolve to no catalog key. */
  ghost function UnknownNames(known: map<string, string>, canon: string -> string, names: set<string>): set<string> {
    set n | n in names && canon(n) != "" && canon(n) !in known
  }

  /** Resolving one more name adds its canonical form, if that is a catalog key. */
  lemma ResolvedNamesAdd(known: map<string, string>, canon: string -> string, names: set<string>, n: string)
    ensures ResolvedNames(known, canon, names + {n}) ==
      ResolvedNames(known, canon, names) + (if canon(n) != "" && canon(n) in known then {canon(n)} else {})
  {
  }

  /** Resolving one more name adds its catalog entry, if it has one. */
  lemma ResolvedFormatAdd(known: map<string, string>, canon: string -> string, names: set<string>, n: string)
    ensures ResolvedFormat(known, canon, names + {n}) ==
      if canon(n) != "" && canon(n) in known
      then ResolvedFormat(known, canon, names)[canon(n) := known[canon(n)]]
      else ResolvedFormat(known, canon, names)
  {
    ResolvedNamesAdd(known, canon, names, n);
  }

  /** Resolving one more name adds it to the unknown names, if it has no catalog entry. */
  lemma UnknownNamesAdd(known: map<string, string>, canon: string -> string, names: set<string>, n: string)
    ensures UnknownNames(known, canon, names + {n}) ==
      if canon(n) != "" && canon(n) !in known
      then UnknownNames(known, canon, names) + {n}
      else UnknownNames(known, canon, names)
  {
  }

  /** Every key of `known` is non-empty and its own canonical form. */
  ghost predicate KeysCanonical(known: map<string, string>) {
    forall k :: k in known ==> k != "" && Canonical(k) == k
  }

  /** `EntryFormatDefault`: the templates for the requested fields, and an
      error listing the requested names that match no catalog field. */
  method EntryFormatDefault(fields: seq<string>) returns (format: map<string, string>, err: Option<FormatError>)
    ensures format == ResolvedFormat(KnownFieldsDefaultMap(), Canonical, Requested(KnownFieldsDefaultMap(), fields))
    ensures err.None? <==> UnknownNames(KnownFieldsDefaultMap(), Canonical, Requested(KnownFieldsDefaultMap(), fields)) == {}
    ensures err.Some? ==>
      StrictlySorted(err.value.names) &&
      Elems(err.value.names) == UnknownNames(KnownFieldsDefaultMap(), Canonical, Requested(KnownFieldsDefaultMap(), fields))
  {
    CatalogKeysCanonical();
    format, err := EntryFormatWith(KnownFieldsDefaultMap(), fields);
  }

  /** The first step of `EntryFormatDefault`: the condensed request, or
      the sorted keys of `known` when nothing is left of it. */
  method RequestedFields(known: map<string, string>, fields: seq<string>) returns (names: seq<string>)
    requires KeysCanonical(known)
    ensures Elems(names) == Requested(known, fields)
    ensures forall x :: x in names ==> x != "" && IsTrimmed(x)
  {
    names := SliceCondenseSpace(fields, true, false);
    ElemsEmpty(names);
    if |names| == 0 {
      names := SortedKeys(known);
      forall x | x in names ensures x != "" && IsTrimmed(x) {
        assert x in Elems(names);
        assert Canonical(x) == x;
      }
    }
  }

  /** The body of `EntryFormatDefault` for a given catalog `known`, whose
      sorted keys stand in for `KnownFields()`. */
  method EntryFormatWith(known: map<string, string>, fields: seq<string>)
    returns (format: map<string, string>, err: Option<FormatError>)
    requires KeysCanonical(known)
    ensures format == ResolvedFormat(known, Canonical, Requested(known, fields))
    ensures err.None? <==> UnknownNames(known, Canonical, Requested(known, fields)) == {}
    ensures err.Some? ==>
      StrictlySorted(err.value.names) &&
      Elems(err.value.names) == UnknownNames(known, Canonical, Requested(known, fields))
  {
    var names := RequestedFields(known, fields);
    format := map[];
    var unknownFields: seq<string> := [];
    for i := 0 to |names|
      invariant format == ResolvedFormat(known, Canonical, Elems(names[..i]))
      invariant Elems(unknownFields) == UnknownNames(known, Canonical, Elems(names[..i]))
      invariant forall x :: x in unknownFields ==> x in names
    {
      var field := names[i];
      var fieldCanonical := ToLower(TrimSpace(field));
      ElemsPrefixStep(names, i);
      ResolvedFormatAdd(known, Canonical, Elems(names[..i]), field);
      UnknownNamesAdd(known, Canonical, Elems(names[..i]), field);
      if |fieldCanonical| != 0 {
        if fieldCanonical in known {
          format := format[fieldCanonical := known[fieldCanonical]];
        } else {
          ElemsAppend(unknownFields, field);
          unknownFields := unknownFields + [field];
        }
      }
    }
    ElemsWhole(names);
    TrimmedNonBlankOfTrimmed(unknownFields);
    unknownFields := SliceCondenseSpace(unknownFields, true, true);
    ElemsEmpty(unknownFields);
    if |unknownFields| > 0 {
      SortedDistinctIsStrict(unknownFields);
      err := Some(UnknownFields(unknownFields));
    } else {
      err := None;
    }
  }

  // Properties of the resolver, for any catalog whose keys are canonical;
  // `CatalogKeysCanonical` says the fixed catalog is one.

  /** A request with no non-blank entry gets every catalog entry and no error. */
  lemma NothingRequestedMeansAll(known: map<string, string>, fields: seq<string>)
    requires KeysCanonical(known)
    requires forall f :: f in fields ==> TrimSpace(f) == ""
    ensures ResolvedFormat(known, Canonical, Requested(known, fields)) == known
    ensures UnknownNames(known, Canonical, Requested(known, fields)) == {}
  {
    assert TrimmedNonBlank(fields) == {};
    var format := ResolvedFormat(known, Canonical, known.Keys);
    forall k | k in known ensures k in format {
      assert k in known.Keys && Canonical(k) == k;
    }
    assert format.Keys == known.Keys;
  }

  /** Every non-blank requested entry is a trimmed request name. */
  lemma RequestedEntry(known: map<string, string>, fields: seq<string>, f: string)
    requires f in fields && TrimSpace(f) != ""
    ensures TrimSpace(f) in TrimmedNonBlank(fields)
    ensures TrimSpace(f) in Requested(known, fields)
    ensures Canonical(TrimSpace(f)) == Canonical(f)
  {
    assert TrimSpace(f) in TrimmedNonBlank(fields);
    CanonicalOfTrimmed(f);
  }

  /** Every request name comes from a non-blank entry, unless there is none. */
  lemma RequestedFrom(known: map<string, string>, fields: seq<string>, n: string)
    requires n in Requested(known, fields) && TrimmedNonBlank(fields) != {}
    ensures exists f :: f in fields && TrimSpace(f) == n && n != ""
  {
    assert n in TrimmedNonBlank(fields);
  }

  /** An entry resolves, whatever its case and surrounding white space, to
      the catalog key it canonicalises to, with that key's template. */
  lemma ResolvedEntry(known: map<string, string>, fields: seq<string>, f: string)
    requires f in fields && Canonical(f) in known && Canonical(f) != ""
    ensures var format := ResolvedFormat(known, Canonical, Requested(known, fields));
      Canonical(f) in format && format[Canonical(f)] == known[Canonical(f)]
  {
    RequestedEntry(known, fields, f);
    assert Canonical(f) in ResolvedNames(known, Canonical, Requested(known, fields));
  }

  /** Every key of the format is the canonical form of a requested name. */
  lemma FormatKeyFromName(known: map<string, string>, names: set<string>, k: string)
    requires k in ResolvedFormat(known, Canonical, names)
    ensures exists n :: n in names && Canonical(n) == k
  {
    var n :| n in names && Canonical(n) != "" && Canonical(n) in known && k == Canonical(n);
  }

  /** A format key that came from a request name came from an entry of the request. */
  lemma FormatKeyFromEntry(known: map<string, string>, fields: seq<string>, k: string)
    requires TrimmedNonBlank(fields) != {}
    requires k in ResolvedFormat(known, Canonical, Requested(known, fields))
    ensures exists f :: f in fields && Canonical(f) == k
  {
    FormatKeyFromName(known, Requested(known, fields), k);
    var n :| n in Requested(known, fields) && Canonical(n) == k;
    RequestedFrom(known, fields, n);
    var f :| f in fields && TrimSpace(f) == n && n != "";
    CanonicalOfTrimmed(f);
  }

  /** When something is requested, the format holds exactly the catalog keys
      that some entry canonicalises to. */
  lemma FormatKeysFromRequest(known: map<string, string>, fields: seq<string>, k: string)
    requires KeysCanonical(known)
    requires exists f :: f in fields && TrimSpace(f) != ""
    ensures k in ResolvedFormat(known, Canonical, Requested(known, fields)) <==>
      k in known && exists f :: f in fields && Canonical(f) == k
  {
    var f0 :| f0 in fields && TrimSpace(f0) != "";
    RequestedEntry(known, fields, f0);
    if k in ResolvedFormat(known, Canonical, Requested(known, fields)) {
      FormatKeyFromEntry(known, fields, k);
    }
    if k in known && exists f :: f in fields && Canonical(f) == k {
      var f :| f in fields && Canonical(f) == k;
      assert k != "";
      ResolvedEntry(known, fields, f);
    }
  }

  /** The resolver reports an error exactly when some non-blank entry
      canonicalises to no catalog key. */
  lemma ErrorIffUnknownRequested(known: map<string, string>, fields: seq<string>)
    requires KeysCanonical(known)
    ensures UnknownNames(known, Canonical, Requested(known, fields)) != {} <==>
      exists f :: f in fields && TrimSpace(f) != "" && Canonical(f) !in known
  {
    var unknown := UnknownNames(known, Canonical, Requested(known, fields));
    if unknown != {} {
      var n :| n in unknown;
      if TrimmedNonBlank(fields) != {} {
        RequestedFrom(known, fields, n);
        var f :| f in fields && TrimSpace(f) == n && n != "";
        CanonicalOfTrimmed(f);
      }
    }
    if exists f :: f in fields && TrimSpace(f) != "" && Canonical(f) !in known {
      var f :| f in fields && TrimSpace(f) != "" && Canonical(f) !in known;
      RequestedEntry(known, fields, f);
      assert TrimSpace(f) in unknown;
    }
  }

  /** The reported names are the trimmed, non-blank entries whose canonical
      form is not a catalog key, in their own spelling: a name that resolves
      is never reported. */
  lemma UnknownNamesAreTrimmedEntries(known: map<string, string>, fields: seq<string>, x: string)
    requires KeysCanonical(known)
    ensures x in UnknownNames(known, Canonical, Requested(known, fields)) <==>
      x != "" && Canonical(x) !in known && exists f :: f in fields && TrimSpace(f) == x
  {
    if x in UnknownNames(known, Canonical, Requested(known, fields)) {
      if TrimmedNonBlank(fields) != {} {
        RequestedFrom(known, fields, x);
      }
    }
    if x != "" && Canonical(x) !in known && exists f :: f in fields && TrimSpace(f) == x {
      var f :| f in fields && TrimSpace(f) == x;
      RequestedEntry(known, fields, f);
    }
  }

  /** The request depends only on which entries occur: repeating an entry
      anywhere, or listing the entries in another order, changes neither the
      format nor the error. */
  lemma SameEntriesSameRequest(known: map<string, string>, a: seq<string>, b: seq<string>)
    requires Elems(a) == Elems(b)
    ensures Requested(known, a) == Requested(known, b)
  {
    forall y ensures y in a <==> y in b {
      assert y in a <==> y in Elems(a);
      assert y in b <==> y in Elems(b);
    }
    assert TrimmedNonBlank(a) == TrimmedNonBlank(b);
  }

  /** Repeating an entry at the end changes neither the format nor the error. */
  lemma RepeatedEntryChangesNothing(known: map<string, string>, fields: seq<string>, i: nat)
    requires i < |fields|
    ensures Requested(known, fields + [fields[i]]) == Requested(known, fields)
  {
    ElemsAppend(fields, fields[i]);
    SameEntriesSameRequest(known, fields + [fields[i]], fields);
  }

  /** Replacing a blank entry by another blank one leaves the request unchanged. */
  lemma BlankReplacementKeepsRequest(known: map<string, string>, fields: seq<string>, i: nat, v: string)
    requires i < |fields| && TrimSpace(fields[i]) == "" && TrimSpace(v) == ""
    ensures Requested(known, fields[i := v]) == Requested(known, fields)
  {
    var g := fields[i := v];
    forall y | y in TrimmedNonBlank(g) ensures y in TrimmedNonBlank(fields) {
      var f :| f in g && TrimSpace(f) != "" && TrimSpace(f) == y;
      var j :| 0 <= j < |g| && g[j] == f;
      assert j != i && fields[j] == f;
    }
    forall y | y in TrimmedNonBlank(fields) ensures y in TrimmedNonBlank(g) {
      var f :| f in fields && TrimSpace(f) != "" && TrimSpace(f) == y;
      var j :| 0 <= j < |fields| && fields[j] == f;
      assert j != i && g[j] == f;
    }
  }

  /** Replacing an entry by one with the same canonical form leaves the set
      of canonical forms of the request unchanged. */
  lemma ReplacedEntryCanonicalForms(fields: seq<string>, i: nat, v: string, c: string)
    requires i < |fields| && Canonical(v) == Canonical(fields[i])
    ensures (exists f :: f in fields[i := v] && Canonical(f) == c) <==>
      (exists f :: f in fields && Canonical(f) == c)
  {
    var g := fields[i := v];
    if exists f :: f in g && Canonical(f) == c {
      var f :| f in g && Canonical(f) == c;
      var j :| 0 <= j < |g| && g[j] == f;
      if j == i {
        assert fields[i] in fields;
      } else {
        assert fields[j] in fields;
      }
    }
    if exists f :: f in fields && Canonical(f) == c {
      var f :| f in fields && Canonical(f) == c;
      var j :| 0 <= j < |fields| && fields[j] == f;
      if j == i {
        assert g[i] in g;
      } else {
        assert g[j] in g;
      }
    }
  }

  /** Each catalog key is in the format of a request exactly when it is in
      the format of the request with one entry replaced by a case variant. */
  lemma CaseVariantKeepsFormatKey(known: map<string, string>, fields: seq<string>, i: nat, v: string, k: string)
    requires KeysCanonical(known)
    requires i < |fields| && Canonical(v) == Canonical(fields[i])
    ensures k in ResolvedFormat(known, Canonical, Requested(known, fields[i := v]))
      <==> k in ResolvedFormat(known, Canonical, Requested(known, fields))
  {
    var g := fields[i := v];
    if TrimSpace(fields[i]) == "" {
      BlankReplacementKeepsRequest(known, fields, i, v);
    } else {
      assert fields[i] in fields && g[i] in g && TrimSpace(g[i]) != "";
      FormatKeysFromRequest(known, g, k);
      FormatKeysFromRequest(known, fields, k);
      ReplacedEntryCanonicalForms(fields, i, v, k);
    }
  }

  /** Changing the case of an entry, or the white space around it, does
      not change the format. */
  lemma CaseVariantKeepsFormat(known: map<string, string>, fields: seq<string>, i: nat, v: string)
    requires KeysCanonical(known)
    requires i < |fields| && Canonical(v) == Canonical(fields[i])
    ensures ResolvedFormat(known, Canonical, Requested(known, fields[i := v]))
      == ResolvedFormat(known, Canonical, Requested(known, fields))
  {
    var a := ResolvedFormat(known, Canonical, Requested(known, fields[i := v]));
    var b := ResolvedFormat(known, Canonical, Requested(known, fields));
    forall k ensures k in a <==> k in b {
      CaseVariantKeepsFormatKey(known, fields, i, v, k);
    }
    assert a.Keys == b.Keys;
  }

  /** Changing the case of an entry, or the white space around it, does
      not change whether an error is reported. */
  lemma CaseVariantKeepsError(known: map<string, string>, fields: seq<string>, i: nat, v: string)
    requires KeysCanonical(known)
    requires i < |fields| && Canonical(v) == Canonical(fields[i])
    ensures UnknownNames(known, Canonical, Requested(known, fields[i := v])) == {}
      <==> UnknownNames(known, Canonical, Requested(known, fields)) == {}
  {
    var g := fields[i := v];
    ErrorIffUnknownRequested(known, g);
    ErrorIffUnknownRequested(known, fields);
    if exists f :: f in g && TrimSpace(f) != "" && Canonical(f) !in known {
      var f :| f in g && TrimSpace(f) != "" && Canonical(f) !in known;
      ReplacedEntryCanonicalForms(fields, i, v, Canonical(f));
      var f' :| f' in fields && Canonical(f') == Canonical(f);
      assert TrimSpace(f') != "";
    }
    if exists f :: f in fields && TrimSpace(f) != "" && Canonical(f) !in known {
      var f :| f in fields && TrimSpace(f) != "" && Canonical(f) !in known;
      ReplacedEntryCanonicalForms(fields, i, v, Canonical(f));
      var f' :| f' in g && Canonical(f') == Canonical(f);
      assert TrimSpace(f') != "";
    }
  }

  /** A request of blank entries only, or of none, gets the whole catalog and
      no error from `EntryFormatDefault`. */
  lemma BlankRequestGetsWholeCatalog(fields: seq<string>)
    requires forall f :: f in fields ==> TrimSpace(f) == ""
    ensures ResolvedFormat(KnownFieldsDefaultMap(), Canonical, Requested(KnownFieldsDefaultMap(), fields))
      == KnownFieldsDefaultMap()
    ensures UnknownNames(KnownFieldsDefaultMap(), Canonical, Requested(KnownFieldsDefaultMap(), fields)) == {}
  {
    CatalogKeysCanonical();
    NothingRequestedMeansAll(KnownFieldsDefaultMap(), fields);
  }

  /** A request of one resolvable entry gets exactly that entry's template. */
  lemma SingleEntryRequest(known: map<string, string>, f: string)
    requires Canonical(f) != "" && Canonical(f) in known
    ensures ResolvedFormat(known, Canonical, Requested(known, [f])) == map[Canonical(f) := known[Canonical(f)]]
    ensures UnknownNames(known, Canonical, Requested(known, [f])) == {}
  {
    var n := TrimSpace(f);
    RequestedEntry(known, [f], f);
    assert TrimmedNonBlank([f]) == {} + {n};
    assert ResolvedFormat(known, Canonical, {}) == map[];
    ResolvedFormatAdd(known, Canonical, {}, n);
    UnknownNamesAdd(known, Canonical, {}, n);
  }
}
