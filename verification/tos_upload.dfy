/** The Volcengine TOS upload adapter: upload host selection, the upload
    callback descriptor, object paths, the browser POST form (`policyGet`),
    the arguments of the pre-signed PUT request, and the adapter object that
    keeps the upload configuration and client settings. */
module TosUpload {
  import opened Php
  import opened Codec
  import opened TosSign
  import opened TosFile

  const ShowHostKey := "tos_host"
  const UploadHostKey := "upload_tos_host"

  /** An upload type's configuration array, as the framework's `C()` returns it. */
  type Config = map<string, Value>

  /** The vendor credentials read from the environment at construction. */
  datatype VendorConfig = VendorConfig(accessKey: string, secretKey: string, bucket: string, endPoint: string, region: string)

  /** The request's query values as the framework's `I('get.…')` returns
      them; an absent value is "". */
  datatype Query = Query(title: string, hashId: string, resize: string, fileType: string)

  /** Framework and plugin helpers the adapter calls, as functions of their inputs. */
  datatype Helpers = Helpers(
    uploadConfig: string -> Config,                              // C('UPLOAD_TYPE_' . strtoupper($type))
    checkUploadConfig: (string, string, string, Config) -> bool, // Common::checkUploadConfig
    genObjectName: (Config, string) -> string,                   // Common::genObjectName($config, $ext)
    cbUrlByType: (string, string, string, string, string) -> string) // Common::getCbUrlByType

  datatype Error =
    | MissingRequiredParameter  // E("…") when the title or the file type is empty
    | HostNotConfigured         // TypeError: neither host key holds a value

  datatype Result<T> = Ok(value: T) | Err(error: Error)

  // ---------------------------------------------------------------------------
  // Upload host

  /** `$config['upload_tos_host'] ?? $config['tos_host']`, returned as a string. */
  function GetUploadHost(config: Config): (r: Option<string>)
    ensures Lookup(config, UploadHostKey) != Null ==> r == CoerceToString(Lookup(config, UploadHostKey))
    ensures Lookup(config, UploadHostKey) == Null ==> r == CoerceToString(Lookup(config, ShowHostKey))
    ensures r.None? <==> Lookup(config, UploadHostKey) == Null && Lookup(config, ShowHostKey) == Null
  {
    var v := if UploadHostKey in config && config[UploadHostKey] != Null then config[UploadHostKey]
             else Lookup(config, ShowHostKey);
    CoerceToString(v)
  }

  lemma UploadHostPreferred(config: Config, upload: string, show: string)
    ensures GetUploadHost(config[UploadHostKey := Str(upload)]) == Some(upload)
    ensures UploadHostKey !in config ==> GetUploadHost(config[ShowHostKey := Str(show)]) == Some(show)
  {
  }

  // ---------------------------------------------------------------------------
  // Upload callback

  // The urlencoded fields of the callback body; the storage service fills in
  // each `${...}` placeholder.
  const FilenameField := "filename=${object}"
  const SizeField := "size=${size}"
  const MimeTypeField := "mimeType=${mimeType}"
  const UploadTypeField := "upload_type=${x:upload_type}"
  const TitleField := "title=${x:title}"
  const HashIdField := "hash_id=${x:hash_id}"
  const ResizeField := "resize=${x:resize}"

  /** The body every callback starts with:
      `filename=${object}&size=${size}&mimeType=${mimeType}&upload_type=${x:upload_type}`. */
  const CallbackBodyBase := FilenameField + "&" + SizeField + "&" + MimeTypeField + "&" + UploadTypeField
  const CallbackBodyType := "application/x-www-form-urlencoded"
  const TitleSegment := "&" + TitleField
  const HashIdSegment := "&" + HashIdField
  const ResizeSegment := "&" + ResizeField

  /** The callback body template: the fixed fields, then the title, hash id
      and resize fields in that order, each only when its query value is truthy. */
  function CallbackBody(q: Query): (body: string)
    ensures CallbackBodyBase <= body
    ensures body == CallbackBodyBase <==> !TruthyStr(q.title) && !TruthyStr(q.hashId) && !TruthyStr(q.resize)
  {
    CallbackBodyBase
    + OptionalSegment(TruthyStr(q.title), TitleField)
    + OptionalSegment(TruthyStr(q.hashId), HashIdField)
    + OptionalSegment(TruthyStr(q.resize), ResizeField)
  }

  function CallbackUrl(h: Helpers, vendorType: string, uploadType: string, q: Query): string
  {
    h.cbUrlByType(uploadType, vendorType, q.title, q.hashId, q.resize)
  }

  /** The callback descriptor array, in its key order. */
  function CallbackParam(cbUrl: string, q: Query): (param: Assoc<string>)
    ensures Keys(param) == ["callbackUrl", "callbackBody", "callbackBodyType"]
    ensures Get(param, "callbackUrl") == Some(cbUrl)
    ensures Get(param, "callbackBody") == Some(CallbackBody(q))
    ensures Get(param, "callbackBodyType") == Some(CallbackBodyType)
  {
    GetOfThree("callbackUrl", cbUrl, "callbackBody", CallbackBody(q), "callbackBodyType", CallbackBodyType);
    Descriptor(cbUrl, CallbackBody(q))
  }

  /** The callback variables: the upload type, then each truthy optional value. */
  function CallbackVars(uploadType: string, q: Query): (vars: Assoc<string>)
    ensures 1 <= |vars| <= 4 && vars[0] == ("x:upload_type", uploadType)
  {
    [("x:upload_type", uploadType)]
    + Optional(TruthyStr(q.title), "x:title", q.title)
    + Optional(TruthyStr(q.hashId), "x:hash_id", q.hashId)
    + Optional(TruthyStr(q.resize), "x:resize", q.resize)
  }

  /** A string-valued array as a JSON object. */
  function StringObject(a: Assoc<string>): (j: Json)
    ensures j.JObject? && |j.fields| == |a|
    ensures forall i :: 0 <= i < |a| ==> j.fields[i] == (a[i].0, JStr(a[i].1))
  {
    JObject(seq(|a|, i requires 0 <= i < |a| => (a[i].0, JStr(a[i].1))))
  }

  function Base64Json(p: Primitives, a: Assoc<string>): string
  {
    p.base64Encode(p.jsonEncode(StringObject(a)))
  }

  /** The descriptor array with a given body. */
  function Descriptor(cbUrl: string, body: string): Assoc<string>
  {
    [("callbackUrl", cbUrl), ("callbackBody", body), ("callbackBodyType", CallbackBodyType)]
  }

  /** `.=` on the descriptor's body extends the body and keeps the rest. */
  lemma AppendToBody(cbUrl: string, body: string, segment: string)
    ensures AppendTo(Descriptor(cbUrl, body), "callbackBody", segment) == Descriptor(cbUrl, body + segment)
  {
    var a := Descriptor(cbUrl, body);
    assert DistinctKeys(a);
    AppendToPresent(a, 1, segment);
  }

  /** The first half of `_cbParam`: the descriptor array, whose body field
      is extended in place by `.=` for each truthy optional value. */
  method BuildCallbackParam(cbUrl: string, q: Query) returns (param: Assoc<string>)
    ensures param == CallbackParam(cbUrl, q)
  {
    param := Descriptor(cbUrl, CallbackBodyBase);
    ghost var body := CallbackBodyBase;
    AppendSegment(cbUrl, body, TruthyStr(q.title), TitleField);
    if TruthyStr(q.title) {
      param := AppendTo(param, "callbackBody", TitleSegment);
    }
    body := body + OptionalSegment(TruthyStr(q.title), TitleField);
    AppendSegment(cbUrl, body, TruthyStr(q.hashId), HashIdField);
    if TruthyStr(q.hashId) {
      param := AppendTo(param, "callbackBody", HashIdSegment);
    }
    body := body + OptionalSegment(TruthyStr(q.hashId), HashIdField);
    AppendSegment(cbUrl, body, TruthyStr(q.resize), ResizeField);
    if TruthyStr(q.resize) {
      param := AppendTo(param, "callbackBody", ResizeSegment);
    }
    body := body + OptionalSegment(TruthyStr(q.resize), ResizeField);
  }

  /** `if ($present) $param['callbackBody'] .= '&' . $field;` extends the
      body by the optional segment. */
  lemma AppendSegment(cbUrl: string, body: string, present: bool, field: string)
    ensures (if present then AppendTo(Descriptor(cbUrl, body), "callbackBody", "&" + field) else Descriptor(cbUrl, body))
      == Descriptor(cbUrl, body + OptionalSegment(present, field))
  {
    if present {
      AppendToBody(cbUrl, body, "&" + field);
    } else {
      assert body + "" == body;
    }
  }

  /** The second half of `_cbParam`: the variables array, where `.=` on a
      missing key creates it. */
  method BuildCallbackVars(uploadType: string, q: Query) returns (vars: Assoc<string>)
    ensures vars == CallbackVars(uploadType, q)
  {
    vars := [("x:upload_type", uploadType)];
    AppendOptional(vars, TruthyStr(q.title), "x:title", q.title);
    if TruthyStr(q.title) {
      vars := AppendTo(vars, "x:title", q.title);
    }
    assert forall i :: 0 <= i < |vars| ==> vars[i].0 in {"x:upload_type", "x:title"};
    AppendOptional(vars, TruthyStr(q.hashId), "x:hash_id", q.hashId);
    if TruthyStr(q.hashId) {
      vars := AppendTo(vars, "x:hash_id", q.hashId);
    }
    assert forall i :: 0 <= i < |vars| ==> vars[i].0 in {"x:upload_type", "x:title", "x:hash_id"};
    AppendOptional(vars, TruthyStr(q.resize), "x:resize", q.resize);
    if TruthyStr(q.resize) {
      vars := AppendTo(vars, "x:resize", q.resize);
    }
  }

  /** `_cbParam`: the descriptor and the variables, each JSON-encoded and
      then base64-encoded. */
  method CbParam(p: Primitives, h: Helpers, vendorType: string, uploadType: string, q: Query)
    returns (body64: string, vars64: string)
    ensures body64 == Base64Json(p, CallbackParam(CallbackUrl(h, vendorType, uploadType, q), q))
    ensures vars64 == Base64Json(p, CallbackVars(uploadType, q))
  {
    var cbUrl := h.cbUrlByType(uploadType, vendorType, q.title, q.hashId, q.resize);
    var param := BuildCallbackParam(cbUrl, q);
    body64 := p.base64Encode(p.jsonEncode(StringObject(param)));
    var vars := BuildCallbackVars(uploadType, q);
    vars64 := p.base64Encode(p.jsonEncode(StringObject(vars)));
  }

  const FixedCallbackFields := [FilenameField, SizeField, MimeTypeField, UploadTypeField]

  /** The optional callback fields present for a query, in order. */
  function OptionalCallbackFields(q: Query): seq<string>
  {
    OptionalPiece(TruthyStr(q.title), TitleField)
    + OptionalPiece(TruthyStr(q.hashId), HashIdField)
    + OptionalPiece(TruthyStr(q.resize), ResizeField)
  }

  /** A part present or absent, after a separator. */
  function OptionalSegment(present: bool, field: string): string
  {
    if present then "&" + field else ""
  }

  function OptionalPiece(present: bool, field: string): seq<string>
  {
    if present then [field] else []
  }

  lemma OptionalSegmentPrefixed(present: bool, field: string)
    ensures SepPrefixed('&', OptionalPiece(present, field)) == OptionalSegment(present, field)
  {
    if present {
      assert [field][1..] == [];
    }
  }

  lemma FourJoined(f0: string, f1: string, f2: string, f3: string)
    ensures Implode('&', [f0, f1, f2, f3]) == f0 + "&" + f1 + "&" + f2 + "&" + f3
  {
    var fixed := [f0, f1, f2, f3];
    assert Implode('&', fixed[3..]) == f3;
    assert Implode('&', fixed[2..]) == f2 + "&" + f3;
    assert Implode('&', fixed[1..]) == f1 + "&" + f2 + "&" + f3;
  }

  lemma OptionalsPrefixed(t: bool, ft: string, h: bool, fh: string, r: bool, fr: string)
    ensures SepPrefixed('&', OptionalPiece(t, ft) + OptionalPiece(h, fh) + OptionalPiece(r, fr))
         == OptionalSegment(t, ft) + OptionalSegment(h, fh) + OptionalSegment(r, fr)
  {
    OptionalSegmentPrefixed(t, ft);
    OptionalSegmentPrefixed(h, fh);
    OptionalSegmentPrefixed(r, fr);
    SepPrefixedAppend('&', OptionalPiece(t, ft), OptionalPiece(h, fh));
    SepPrefixedAppend('&', OptionalPiece(t, ft) + OptionalPiece(h, fh), OptionalPiece(r, fr));
  }

  /** Four fields joined with '&' and then three optional ones, each after
      its own '&', read as the '&'-join of all the fields present. */
  lemma JoinedFields(f0: string, f1: string, f2: string, f3: string,
                     t: bool, ft: string, h: bool, fh: string, r: bool, fr: string)
    ensures f0 + "&" + f1 + "&" + f2 + "&" + f3 + OptionalSegment(t, ft) + OptionalSegment(h, fh) + OptionalSegment(r, fr)
         == Implode('&', [f0, f1, f2, f3] + (OptionalPiece(t, ft) + OptionalPiece(h, fh) + OptionalPiece(r, fr)))
  {
    var base := f0 + "&" + f1 + "&" + f2 + "&" + f3;
    var opt := OptionalPiece(t, ft) + OptionalPiece(h, fh) + OptionalPiece(r, fr);
    FourJoined(f0, f1, f2, f3);
    ImplodeAppend('&', [f0, f1, f2, f3], opt);
    OptionalsPrefixed(t, ft, h, fh, r, fr);
    ConcatRegroup(base, OptionalSegment(t, ft), OptionalSegment(h, fh), OptionalSegment(r, fr));
  }

  /** String concatenation regrouped; kept apart so the solver proves it
      without the rest of the join in view. */
  lemma ConcatRegroup(a: string, b: string, c: string, d: string)
    ensures a + b + c + d == a + (b + c + d)
  {
  }

  /** The callback body is its fields joined with '&'. */
  lemma CallbackBodyJoined(q: Query)
    ensures CallbackBody(q) == Implode('&', FixedCallbackFields + OptionalCallbackFields(q))
  {
    JoinedFields(FilenameField, SizeField, MimeTypeField, UploadTypeField,
                 TruthyStr(q.title), TitleField, TruthyStr(q.hashId), HashIdField, TruthyStr(q.resize), ResizeField);
  }

  /** No callback field holds a '&'. */
  lemma CallbackFieldsPlain(q: Query)
    ensures forall i :: 0 <= i < |FixedCallbackFields + OptionalCallbackFields(q)| ==>
      '&' !in (FixedCallbackFields + OptionalCallbackFields(q))[i]
  {
    FieldsWithoutAmpersand();
    var all := FixedCallbackFields + OptionalCallbackFields(q);
    forall i | 0 <= i < |all| ensures '&' !in all[i] {
      assert all[i] in {FilenameField, SizeField, MimeTypeField, UploadTypeField, TitleField, HashIdField, ResizeField};
    }
  }

  lemma FieldsWithoutAmpersand()
    ensures '&' !in FilenameField && '&' !in SizeField && '&' !in MimeTypeField && '&' !in UploadTypeField
    ensures '&' !in TitleField && '&' !in HashIdField && '&' !in ResizeField
  {
    forall s | s in [FilenameField, SizeField, MimeTypeField, UploadTypeField, TitleField, HashIdField, ResizeField]
      ensures '&' !in s
    {
      assert forall i :: 0 <= i < |s| ==> s[i] != '&';
    }
  }

  /** Read as an urlencoded form, the callback body is the four fixed fields
      followed by the title, hash id and resize fields, in that order, each
      present exactly when its query value is truthy. */
  lemma CallbackBodyFields(q: Query)
    ensures Explode('&', CallbackBody(q)) == FixedCallbackFields + OptionalCallbackFields(q)
  {
    CallbackBodyJoined(q);
    CallbackFieldsPlain(q);
    ExplodeImplode('&', FixedCallbackFields + OptionalCallbackFields(q));
  }

  /** The variables hold the upload type always, and each optional value
      exactly when it is truthy; no key is repeated. */
  lemma CallbackVarsLookup(uploadType: string, q: Query)
    ensures DistinctKeys(CallbackVars(uploadType, q))
    ensures Get(CallbackVars(uploadType, q), "x:upload_type") == Some(uploadType)
    ensures Get(CallbackVars(uploadType, q), "x:title") == if TruthyStr(q.title) then Some(q.title) else None
    ensures Get(CallbackVars(uploadType, q), "x:hash_id") == if TruthyStr(q.hashId) then Some(q.hashId) else None
    ensures Get(CallbackVars(uploadType, q), "x:resize") == if TruthyStr(q.resize) then Some(q.resize) else None
  {
    var a0 := [("x:upload_type", uploadType)];
    var a1 := a0 + Optional(TruthyStr(q.title), "x:title", q.title);
    var a2 := a1 + Optional(TruthyStr(q.hashId), "x:hash_id", q.hashId);
    var a3 := a2 + Optional(TruthyStr(q.resize), "x:resize", q.resize);
    assert Keys(a0) == ["x:upload_type"];
    DistinctOptional(a0, TruthyStr(q.title), "x:title", q.title);
    DistinctOptional(a1, TruthyStr(q.hashId), "x:hash_id", q.hashId);
    DistinctOptional(a2, TruthyStr(q.resize), "x:resize", q.resize);
    // "x:upload_type"
    GetOptionalOther(a0, TruthyStr(q.title), "x:title", q.title, "x:upload_type");
    GetOptionalOther(a1, TruthyStr(q.hashId), "x:hash_id", q.hashId, "x:upload_type");
    GetOptionalOther(a2, TruthyStr(q.resize), "x:resize", q.resize, "x:upload_type");
    // "x:title"
    GetOptionalSelf(a0, TruthyStr(q.title), "x:title", q.title);
    GetOptionalOther(a1, TruthyStr(q.hashId), "x:hash_id", q.hashId, "x:title");
    GetOptionalOther(a2, TruthyStr(q.resize), "x:resize", q.resize, "x:title");
    // "x:hash_id"
    GetOptionalSelf(a1, TruthyStr(q.hashId), "x:hash_id", q.hashId);
    GetOptionalOther(a2, TruthyStr(q.resize), "x:resize", q.resize, "x:hash_id");
    // "x:resize"
    GetOptionalSelf(a2, TruthyStr(q.resize), "x:resize", q.resize);
  }

  // ---------------------------------------------------------------------------
  // Object paths

  /** The extension appended to the generated object name: "." and the
      extension of the url-decoded title, but only for a truthy title that
      holds a '.'. */
  function FileExt(p: Primitives, title: string): (ext: string)
    ensures ext != "" <==> TruthyStr(title) && '.' in title
    ensures ext != "" ==> ext == "." + p.pathExtension(p.urlDecode(title))
  {
    if TruthyStr(title) && '.' in title then "." + p.pathExtension(p.urlDecode(title)) else ""
  }

  /** The path used in the POST url: a '/' is put in front unless there is one. */
  function PostPathname(dir: string): (path: string)
    ensures |path| >= 1 && path[0] == '/'
    ensures if |dir| >= 1 && dir[0] == '/' then path == dir else path == "/" + dir
  {
    if |dir| >= 1 && dir[..1] == "/" then dir else "/" + dir
  }

  /** The object key of the pre-signed PUT: when the name starts with '/',
      every leading '/' is removed (`ltrim`). */
  function PutPathname(dir: string): (key: string)
    ensures key == [] || key[0] != '/'
    ensures |key| <= |dir| && key == dir[|dir| - |key|..]
    ensures forall i :: 0 <= i < |dir| - |key| ==> dir[i] == '/'
  {
    if |dir| >= 1 && dir[0] == '/' then LTrim(dir, {'/'}) else dir
  }

  /** The POST url path and the PUT key name the same object: adding the
      leading '/' and stripping leading '/'s cancel out. */
  lemma PathnamesAgree(dir: string)
    ensures PutPathname(PostPathname(dir)) == PutPathname(dir)
  {
    var post := PostPathname(dir);
    if !(|dir| >= 1 && dir[0] == '/') {
      assert post == "/" + dir;
      assert post[1..] == dir;
      assert LTrim(post, {'/'}) == LTrim(dir, {'/'});
      assert dir != [] ==> LTrim(dir, {'/'}) == dir;
    }
  }

  // ---------------------------------------------------------------------------
  // The POST form

  /** The form fields shared by the policy conditions and the returned form:
      content type, name, callback, callback variables, credential, algorithm
      and date. No field repeats, none is named `bucket`, `key`, `policy` or
      `x-tos-signature`, and the credential and the algorithm are among them. */
  function CommonParams(fileType: string, title: string, body64: string, vars64: string,
                        credential: string, date: string): (a: Assoc<string>)
    ensures DistinctKeys(a)
    ensures forall j :: 0 <= j < |a| ==> a[j].0 != "bucket" && a[j].0 != "key" && a[j].0 != "policy" && a[j].0 != "x-tos-signature"
    ensures ("x-tos-credential", credential) in a && ("x-tos-algorithm", Algorithm) in a
  {
    var a := [("Content-Type", fileType), ("name", title), ("x-tos-callback", body64), ("x-tos-callback-var", vars64),
              ("x-tos-credential", credential), ("x-tos-algorithm", Algorithm), ("x-tos-date", date)];
    assert a[4] == ("x-tos-credential", credential);
    assert a[5] == ("x-tos-algorithm", Algorithm);
    a
  }

  datatype PostUpload = PostUpload(url: string, params: Assoc<string>)

  /** The object name generated for this request. */
  function ObjectDir(p: Primitives, h: Helpers, uploadType: string, q: Query): string
  {
    h.genObjectName(h.uploadConfig(uploadType), FileExt(p, q.title))
  }

  function PostCommonParams(p: Primitives, h: Helpers, vendor: VendorConfig, vendorType: string,
                            uploadType: string, q: Query, now: int): Assoc<string>
  {
    CommonParams(q.fileType, q.title,
      Base64Json(p, CallbackParam(CallbackUrl(h, vendorType, uploadType, q), q)),
      Base64Json(p, CallbackVars(uploadType, q)),
      Credential(p, vendor.accessKey, now, vendor.region),
      SignDate(p, now))
  }

  /** `_genPostObjParam`: the POST url and the form fields, signed at time `now`. */
  function GenPostObjParam(p: Primitives, h: Helpers, vendor: VendorConfig, vendorType: string,
                           uploadType: string, q: Query, now: int): (r: Result<PostUpload>)
    ensures r.Ok? <==> GetUploadHost(h.uploadConfig(uploadType)).Some?
    ensures r.Err? ==> r.error == HostNotConfigured
    ensures r.Ok? ==> r.value.url == GetUploadHost(h.uploadConfig(uploadType)).value + PostPathname(ObjectDir(p, h, uploadType, q))
  {
    var config := h.uploadConfig(uploadType);
    match GetUploadHost(config)
    case None => Err(HostNotConfigured)
    case Some(host) =>
      var dir := ObjectDir(p, h, uploadType, q);
      var common := PostCommonParams(p, h, vendor, vendorType, uploadType, q, now);
      var policy := PostSignPolicy(p, dir, now, vendor.bucket, common);
      var signature := PostSignature(p, vendor.secretKey, policy, now, vendor.region);
      Ok(PostUpload(host + PostPathname(dir),
        Merge(common, [("key", dir), ("policy", policy), ("x-tos-signature", signature)])))
  }

  /** `policyGet`: a validation failure when the title or the file type is
      empty, otherwise the POST form. */
  function PolicyGet(p: Primitives, h: Helpers, vendor: VendorConfig, vendorType: string,
                     uploadType: string, q: Query, now: int): (r: Result<PostUpload>)
    ensures r == Err(MissingRequiredParameter) <==> !TruthyStr(q.title) || !TruthyStr(q.fileType)
    ensures r == Err(HostNotConfigured) <==>
      TruthyStr(q.title) && TruthyStr(q.fileType) && GetUploadHost(h.uploadConfig(uploadType)).None?
  {
    if !TruthyStr(q.title) || !TruthyStr(q.fileType) then Err(MissingRequiredParameter)
    else GenPostObjParam(p, h, vendor, vendorType, uploadType, q, now)
  }

  /** The POST form: url is the upload host followed by the '/'-prefixed
      object name; the fields are the common fields, unchanged and in order,
      followed by `key` (the object name), `policy` and `x-tos-signature`. */
  lemma PostObjParamShape(p: Primitives, h: Helpers, vendor: VendorConfig, vendorType: string,
                          uploadType: string, q: Query, now: int)
    ensures var r := GenPostObjParam(p, h, vendor, vendorType, uploadType, q, now);
      var host := GetUploadHost(h.uploadConfig(uploadType));
      var dir := ObjectDir(p, h, uploadType, q);
      var common := PostCommonParams(p, h, vendor, vendorType, uploadType, q, now);
      var policy := PostSignPolicy(p, dir, now, vendor.bucket, common);
      && (r.Ok? <==> host.Some?)
      && (r.Ok? ==> r.value.url == host.value + PostPathname(dir))
      && (r.Ok? ==> r.value.params == common + [("key", dir), ("policy", policy),
                      ("x-tos-signature", PostSignature(p, vendor.secretKey, policy, now, vendor.region))])
  {
    var dir := ObjectDir(p, h, uploadType, q);
    var common := PostCommonParams(p, h, vendor, vendorType, uploadType, q, now);
    var policy := PostSignPolicy(p, dir, now, vendor.bucket, common);
    MergeThreeFresh(common, "key", dir, "policy", policy,
      "x-tos-signature", PostSignature(p, vendor.secretKey, policy, now, vendor.region));
  }

  /** The common fields keep their values when `key`, `policy` and
      `x-tos-signature` are appended. */
  lemma PostFormReadsCommon(common: Assoc<string>, extra: Assoc<string>)
    requires DistinctKeys(common)
    ensures forall j :: 0 <= j < |common| ==> Get(common + extra, common[j].0) == Some(common[j].1)
  {
    forall j | 0 <= j < |common| ensures Get(common + extra, common[j].0) == Some(common[j].1) {
      GetAt(common, j);
      GetAppendLeft(common, extra, common[j].0);
    }
  }

  /** The appended `key`, `policy` and `x-tos-signature` read back with
      their values when the common fields use none of these keys. */
  lemma PostFormReadsAppended(common: Assoc<string>, dir: string, policy: string, sig: string)
    requires forall j :: 0 <= j < |common| ==> common[j].0 != "key" && common[j].0 != "policy" && common[j].0 != "x-tos-signature"
    ensures Get(common + [("key", dir), ("policy", policy), ("x-tos-signature", sig)], "key") == Some(dir)
    ensures Get(common + [("key", dir), ("policy", policy), ("x-tos-signature", sig)], "policy") == Some(policy)
    ensures Get(common + [("key", dir), ("policy", policy), ("x-tos-signature", sig)], "x-tos-signature") == Some(sig)
  {
    GetAppendedThree(common, "key", dir, "policy", policy, "x-tos-signature", sig);
  }

  /** A form carrying the adapter's credential, algorithm, policy and
      signature passes the verifier's signature check. */
  lemma SignedFormValid(p: Primitives, vendor: VendorConfig, now: int, policy: string, form: Assoc<string>)
    requires '/' !in vendor.accessKey && '/' !in ScopeDate(p, now) && '/' !in vendor.region
    requires Get(form, "x-tos-credential") == Some(Credential(p, vendor.accessKey, now, vendor.region))
    requires Get(form, "x-tos-algorithm") == Some(Algorithm)
    requires Get(form, "policy") == Some(policy)
    requires Get(form, "x-tos-signature") == Some(PostSignature(p, vendor.secretKey, policy, now, vendor.region))
    ensures SignatureValid(p, vendor.accessKey, vendor.secretKey, form)
  {
    CredentialParts(p, vendor.accessKey, now, vendor.region);
    SignKeyDerivation(p, vendor.secretKey, now, vendor.region);
    var parts := Explode('/', Credential(p, vendor.accessKey, now, vendor.region));
    assert parts[1..] == CredentialScope(p, now, vendor.region);
  }

  /** A form whose fields carry the common values and `key = dir` meets every
      condition of the policy built from them. */
  lemma FormMeetsPolicy(p: Primitives, dir: string, now: int, bucket: string, common: Assoc<string>, form: Assoc<string>)
    requires forall j :: 0 <= j < |common| ==> common[j].0 != "bucket" && Get(form, common[j].0) == Some(common[j].1)
    requires Get(form, "key") == Some(dir)
    ensures FormSatisfiesPolicy(PolicyDocument(p, dir, now, bucket, common), bucket, form)
  {
    var conds := Conditions(dir, bucket, common);
    forall i | 0 <= i < |conds| ensures ConditionHolds(conds[i], bucket, form) {
      if i == 1 {
        assert "$key"[1..] == "key";
      } else if i >= 2 {
        assert conds[i] == JObject([(common[i - 2].0, JStr(common[i - 2].1))]);
      }
    }
  }

  /** The returned form, given its common fields, passes both verifier checks. */
  lemma SignedFormAccepted(p: Primitives, vendor: VendorConfig, now: int, dir: string, common: Assoc<string>)
    requires '/' !in vendor.accessKey && '/' !in ScopeDate(p, now) && '/' !in vendor.region
    requires DistinctKeys(common)
    requires forall j :: 0 <= j < |common| ==> common[j].0 != "bucket" && common[j].0 != "key" && common[j].0 != "policy" && common[j].0 != "x-tos-signature"
    requires ("x-tos-credential", Credential(p, vendor.accessKey, now, vendor.region)) in common
    requires ("x-tos-algorithm", Algorithm) in common
    ensures var policy := PostSignPolicy(p, dir, now, vendor.bucket, common);
      var form := common + [("key", dir), ("policy", policy),
                            ("x-tos-signature", PostSignature(p, vendor.secretKey, policy, now, vendor.region))];
      && SignatureValid(p, vendor.accessKey, vendor.secretKey, form)
      && Get(form, "policy") == Some(policy)
      && FormSatisfiesPolicy(PolicyDocument(p, dir, now, vendor.bucket, common), vendor.bucket, form)
  {
    var policy := PostSignPolicy(p, dir, now, vendor.bucket, common);
    var sig := PostSignature(p, vendor.secretKey, policy, now, vendor.region);
    var form := common + [("key", dir), ("policy", policy), ("x-tos-signature", sig)];
    PostFormReadsCommon(common, [("key", dir), ("policy", policy), ("x-tos-signature", sig)]);
    PostFormReadsAppended(common, dir, policy, sig);
    SignedFormValid(p, vendor, now, policy, form);
    FormMeetsPolicy(p, dir, now, vendor.bucket, common, form);
  }

  /** A verifier that follows the TOS4-HMAC-SHA256 recipe and holds the
      vendor's secret key accepts every form `policyGet` returns: the
      signature matches the policy and the credential scope, the `policy`
      field is the encoded policy document, and the form meets every
      condition of that document for the vendor's bucket. */
  lemma PolicyGetAccepted(p: Primitives, h: Helpers, vendor: VendorConfig, vendorType: string,
                          uploadType: string, q: Query, now: int)
    requires '/' !in vendor.accessKey && '/' !in ScopeDate(p, now) && '/' !in vendor.region
    ensures var r := PolicyGet(p, h, vendor, vendorType, uploadType, q, now);
      var doc := PolicyDocument(p, ObjectDir(p, h, uploadType, q), now, vendor.bucket,
                                PostCommonParams(p, h, vendor, vendorType, uploadType, q, now));
      r.Ok? ==>
        && SignatureValid(p, vendor.accessKey, vendor.secretKey, r.value.params)
        && Get(r.value.params, "policy") == Some(p.base64Encode(p.jsonEncode(doc)))
        && FormSatisfiesPolicy(doc, vendor.bucket, r.value.params)
  {
    var r := PolicyGet(p, h, vendor, vendorType, uploadType, q, now);
    if r.Ok? {
      assert r == GenPostObjParam(p, h, vendor, vendorType, uploadType, q, now);
      PostObjParamShape(p, h, vendor, vendorType, uploadType, q, now);
      var dir := ObjectDir(p, h, uploadType, q);
      var common := PostCommonParams(p, h, vendor, vendorType, uploadType, q, now);
      SignedFormAccepted(p, vendor, now, dir, common);
    }
  }

  // ---------------------------------------------------------------------------
  // The pre-signed PUT request

  const PutExpiresSeconds := 3600

  /** The arguments handed to the SDK's pre-signing call. */
  datatype PutSignRequest = PutSignRequest(httpMethod: string, bucket: string, key: string, expires: int, query: Assoc<string>)

  datatype PutPlan = PutPlan(dir: string, request: PutSignRequest)

  /** `_genPutSignedParamsDemo` up to the SDK call: the callback query, the
      generated object name and the signing request for it. */
  function PutSignedParams(p: Primitives, h: Helpers, vendor: VendorConfig, vendorType: string,
                           uploadType: string, q: Query): (plan: PutPlan)
    ensures plan.dir == ObjectDir(p, h, uploadType, q)
    ensures plan.request.key == [] || plan.request.key[0] != '/'
    ensures plan.request.key == PutPathname(plan.dir)
    ensures plan.request.httpMethod == "PUT" && plan.request.bucket == vendor.bucket
    ensures plan.request.expires == PutExpiresSeconds
    ensures Keys(plan.request.query) == ["x-tos-callback", "x-tos-callback-var"]
    ensures Get(plan.request.query, "x-tos-callback") == Some(Base64Json(p, CallbackParam(CallbackUrl(h, vendorType, uploadType, q), q)))
    ensures Get(plan.request.query, "x-tos-callback-var") == Some(Base64Json(p, CallbackVars(uploadType, q)))
  {
    var query := [("x-tos-callback", Base64Json(p, CallbackParam(CallbackUrl(h, vendorType, uploadType, q), q))),
                  ("x-tos-callback-var", Base64Json(p, CallbackVars(uploadType, q)))];
    var dir := ObjectDir(p, h, uploadType, q);
    PutPlan(dir, PutSignRequest("PUT", vendor.bucket, PutPathname(dir), PutExpiresSeconds, query))
  }

  /** The PUT request carries the same callback and callback variables as
      the POST form built for the same request. */
  lemma PutCallbackAsPost(p: Primitives, h: Helpers, vendor: VendorConfig, vendorType: string,
                          uploadType: string, q: Query, now: int)
    ensures var post := GenPostObjParam(p, h, vendor, vendorType, uploadType, q, now);
      var query := PutSignedParams(p, h, vendor, vendorType, uploadType, q).request.query;
      post.Ok? ==>
        && Get(query, "x-tos-callback") == Get(post.value.params, "x-tos-callback")
        && Get(query, "x-tos-callback-var") == Get(post.value.params, "x-tos-callback-var")
  {
    var post := GenPostObjParam(p, h, vendor, vendorType, uploadType, q, now);
    if post.Ok? {
      PostObjParamShape(p, h, vendor, vendorType, uploadType, q, now);
      var dir := ObjectDir(p, h, uploadType, q);
      var common := PostCommonParams(p, h, vendor, vendorType, uploadType, q, now);
      var policy := PostSignPolicy(p, dir, now, vendor.bucket, common);
      CommonCallbackReads(q.fileType, q.title,
        Base64Json(p, CallbackParam(CallbackUrl(h, vendorType, uploadType, q), q)),
        Base64Json(p, CallbackVars(uploadType, q)),
        Credential(p, vendor.accessKey, now, vendor.region),
        SignDate(p, now),
        [("key", dir), ("policy", policy),
         ("x-tos-signature", PostSignature(p, vendor.secretKey, policy, now, vendor.region))]);
    }
  }

  /** Fields appended after the common fields leave the callback fields readable. */
  lemma CommonCallbackReads(fileType: string, title: string, body64: string, vars64: string,
                            credential: string, date: string, extra: Assoc<string>)
    ensures Get(CommonParams(fileType, title, body64, vars64, credential, date) + extra, "x-tos-callback") == Some(body64)
    ensures Get(CommonParams(fileType, title, body64, vars64, credential, date) + extra, "x-tos-callback-var") == Some(vars64)
  {
    var c := CommonParams(fileType, title, body64, vars64, credential, date);
    PostFormReadsCommon(c, extra);
    assert c[2] == ("x-tos-callback", body64);
    assert c[3] == ("x-tos-callback-var", vars64);
  }

  // ---------------------------------------------------------------------------
  // The adapter object

  /** The settings the SDK client is built with. */
  datatype ClientSettings = ClientSettings(region: string, endpoint: string, ak: string, sk: string)

  class VolcengineTos {
    const vendorType: string
    const vendor: VendorConfig
    var uploadConfig: Option<Config>
    var client: Option<ClientSettings>

    /** The vendor configuration comes from the environment; no upload type
        is selected yet. */
    constructor (vendorType: string, vendor: VendorConfig)
      ensures this.vendorType == vendorType && this.vendor == vendor
      ensures uploadConfig == None && client == None
    {
      this.vendorType := vendorType;
      this.vendor := vendor;
      uploadConfig := None;
      client := None;
    }

    /** `extraFile`: fills the file record field by field from the callback
        body and the upload type's configuration. */
    method ExtraFile(config: Config, body: map<string, Value>) returns (fileData: Assoc<Value>)
      ensures fileData == FileData(vendorType, Lookup(config, ShowHostKey), Lookup(config, SecurityKey), body)
    {
      ghost var d := FileData(vendorType, Lookup(config, ShowHostKey), Lookup(config, SecurityKey), body);
      var title := Lookup(body, "title");
      var filename := ToStr(Lookup(body, "filename"));
      fileData := [];
      assert fileData == d[..0];
      SetNext(d, 0);
      if Truthy(title) {
        assert d[0] == ("title", title);
        fileData := Set(fileData, "title", title);
      } else {
        var nameArr := Explode('/', filename);
        assert d[0] == ("title", Str(nameArr[|nameArr| - 1]));
        fileData := Set(fileData, "title", Str(nameArr[|nameArr| - 1]));
      }
      assert fileData == d[..1];
      SetNext(d, 1);
      assert d[1] == ("url", Str(ToStr(Lookup(config, ShowHostKey)) + "/" + filename));
      fileData := Set(fileData, "url", Str(ToStr(Lookup(config, ShowHostKey)) + "/" + filename));
      assert fileData == d[..2];
      SetNext(d, 2);
      assert d[2] == ("size", Lookup(body, "size"));
      fileData := Set(fileData, "size", Lookup(body, "size"));
      assert fileData == d[..3];
      var security := if Truthy(Lookup(config, SecurityKey)) then 1 else 0;
      SetNext(d, 3);
      assert d[3] == ("security", Int(security));
      fileData := Set(fileData, "security", Int(security));
      assert fileData == d[..4];
      SetNext(d, 4);
      assert d[4] == ("file", Str(""));
      fileData := Set(fileData, "file", Str(""));
      assert fileData == d[..5];
      SetNext(d, 5);
      assert d[5] == ("vendor_type", Str(vendorType));
      fileData := Set(fileData, "vendor_type", Str(vendorType));
      FileDataLength(vendorType, Lookup(config, ShowHostKey), Lookup(config, SecurityKey), body);
      TakeWhole(d, 6);
    }

    /** `_genPutSignedParamsDemo` up to the SDK call: the arguments are built,
        then `genClient` runs; when its configuration check fails, the call on
        the null client aborts the request, which is `None` here. */
    method GenPutSignedParams(p: Primitives, h: Helpers, uploadType: string, q: Query) returns (r: Option<PutPlan>)
      modifies this
      ensures r.Some? <==> h.checkUploadConfig(uploadType, vendorType, ShowHostKey, h.uploadConfig(uploadType))
      ensures r.Some? ==> r.value == PutSignedParams(p, h, vendor, vendorType, uploadType, q)
      ensures r.Some? ==> uploadConfig == Some(h.uploadConfig(uploadType))
      ensures r.Some? ==> client == Some(ClientSettings(vendor.region, vendor.endPoint, vendor.accessKey, vendor.secretKey))
      ensures r.None? ==> uploadConfig == old(uploadConfig) && client == old(client)
    {
      var plan := PutSignedParams(p, h, vendor, vendorType, uploadType, q);
      var ok := GenClient(h, uploadType);
      if ok {
        r := Some(plan);
      } else {
        r := None;
      }
    }

    /** `genClient`: when the upload type's configuration passes the check,
        keep it and the client settings built from the vendor configuration
        (the object is returned); otherwise change nothing (null is returned). */
    method GenClient(h: Helpers, uploadType: string) returns (ok: bool)
      modifies this
      ensures ok == h.checkUploadConfig(uploadType, vendorType, ShowHostKey, h.uploadConfig(uploadType))
      ensures ok ==> uploadConfig == Some(h.uploadConfig(uploadType))
      ensures ok ==> client == Some(ClientSettings(vendor.region, vendor.endPoint, vendor.accessKey, vendor.secretKey))
      ensures !ok ==> uploadConfig == old(uploadConfig) && client == old(client)
    {
      var config := h.uploadConfig(uploadType);
      ok := h.checkUploadConfig(uploadType, vendorType, ShowHostKey, config);
      if ok {
        uploadConfig := Some(config);
        client := Some(ClientSettings(vendor.region, vendor.endPoint, vendor.accessKey, vendor.secretKey));
      }
    }
  }
}
