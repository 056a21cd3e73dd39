# Volcengine TOS upload adapter, modelled in Dafny

This project models the deterministic core of the Volcengine TOS vendor
adapter of the object-storage form item (`src/Lib/Vendor/VolcengineTos.php`).
It covers the part of the adapter that builds strings and records:

- the choice of the upload host;
- the upload callback descriptor and its `x:` variables;
- the TOS4-HMAC-SHA256 credential, signing key and signature;
- the POST policy document and the browser form that `policyGet` returns;
- the object paths of the POST and PUT flows;
- the argument set of the pre-signed PUT request;
- the file record that `extraFile` returns;
- the image resize option of `resizeImg`;
- the object url split of `_handleTosUrl`.

The model is split into five modules:

- `Php` holds the PHP semantics the adapter relies on. Strings are truthy
  unless they are `""` or `"0"`. Ordered string-keyed arrays support
  assignment, `.=` and `array_merge`. It also defines `explode`, `implode`,
  `ltrim`, `rtrim` and `trim` with a character set.
- `Codec` holds raw HMAC digests, the hexadecimal output of `hash_hmac`,
  JSON values, and the built-ins whose internals are not modelled: `date`,
  `hash_hmac`, `json_encode`, `base64_encode`, `urldecode` and `pathinfo`.
  Each built-in is a function-valued field of a `Primitives` record that the
  operations take as a parameter.
- `TosSign` holds the credential scope, the four-step key derivation, the
  signature and the policy document. Next to them it holds an independent
  description of what a verifier checks in a signed form (`SignatureValid`,
  `FormSatisfiesPolicy`).
- `TosFile` holds the resize option, the file record and the url split,
  including the region correction described under Findings.
- `TosUpload` holds the upload host, the callback, the paths, the POST form,
  the PUT arguments and the `VolcengineTos` class.

`VolcengineTos` is a class because `genClient` updates the upload
configuration and the client in place. The three in-place builders are
methods proved against the functions that specify them:

- the callback descriptor (`BuildCallbackParam`);
- the callback variables (`BuildCallbackVars`);
- the file record (`VolcengineTos.ExtraFile`).

Framework calls enter as parameters:

- `I('get.…')` becomes a `Query` record, where a missing value is `""`.
- `C('UPLOAD_TYPE_…')` and the `Common::` helpers become function fields of
  a `Helpers` record.
- The environment values read by the constructor become a `VendorConfig`.
- The clock becomes an integer `now`.

`trim($host[1], 'tos-')` removes any of the characters `t`, `o`, `s`, `-`
from both ends; it does not remove a prefix. The model states it that way
and records the consequence under Findings.

## Model

| member | source | states |
|---|---|---|
| TosUpload.GetUploadHost | src/Lib/Vendor/VolcengineTos.php:48-50 | the upload host key wins when it is set and not null, otherwise the display host is used; the result is missing exactly when both keys are null |
| TosUpload.UploadHostPreferred | src/Lib/Vendor/VolcengineTos.php:48-50 | a configured upload host is returned as is; without one, the display host is returned |
| TosUpload.BuildCallbackParam | src/Lib/Vendor/VolcengineTos.php:85-96 | the descriptor built by in-place `.=` appends equals `CallbackParam`: url, body and body type, with the body extended by each truthy optional segment in order |
| TosUpload.BuildCallbackVars | src/Lib/Vendor/VolcengineTos.php:100-109 | the variables built by `.=` on missing keys equal `CallbackVars`: the upload type, then each truthy optional value appended under its own key |
| TosUpload.CbParam | src/Lib/Vendor/VolcengineTos.php:84-113 | the two returned strings are the base64 of the JSON of the descriptor and of the variables |
| TosUpload.CallbackBodyJoined | src/Lib/Vendor/VolcengineTos.php:86-96 | the callback body is the four fixed fields followed by the present optional fields, joined with '&' |
| TosUpload.CallbackBodyFields | src/Lib/Vendor/VolcengineTos.php:86-96 | read back as '&'-separated fields, the body is `filename`, `size`, `mimeType`, `upload_type`, then `title`, `hash_id` and `resize` in that order, each present exactly when its query value is truthy |
| TosUpload.CallbackVarsLookup | src/Lib/Vendor/VolcengineTos.php:100-109 | the variables hold `x:upload_type` always, and hold `x:title`, `x:hash_id` or `x:resize` with its value exactly when that value is truthy; no key repeats |
| TosUpload.FileExt | src/Lib/Vendor/VolcengineTos.php:211-214 | the extension is non-empty exactly when the title is truthy and contains '.', and then it is "." followed by the extension of the url-decoded title |
| TosUpload.PostPathname | src/Lib/Vendor/VolcengineTos.php:218-219 | the POST path always starts with '/'; it is the object name when that already starts with '/', otherwise '/' followed by the name |
| TosUpload.PutPathname | src/Lib/Vendor/VolcengineTos.php:131-132 | the PUT key has no leading '/', it is a suffix of the object name, and everything removed in front of it is '/' |
| TosUpload.PathnamesAgree | src/Lib/Vendor/VolcengineTos.php:131-132 | stripping the PUT way after prefixing the POST way gives the same key as stripping the name directly |
| TosUpload.CommonParams | src/Lib/Vendor/VolcengineTos.php:227-236 | no common field repeats, none is named bucket, key, policy or x-tos-signature, and the credential and the algorithm are among them |
| TosUpload.CallbackBody | src/Lib/Vendor/VolcengineTos.php:86-96 | the body starts with the four fixed fields and is exactly those fields when none of title, hash_id and resize is truthy |
| TosUpload.CallbackParam | src/Lib/Vendor/VolcengineTos.php:85-96 | the descriptor holds exactly `callbackUrl`, `callbackBody` and `callbackBodyType`, in that order, with the callback url, the body and the body type |
| TosUpload.CallbackVars | src/Lib/Vendor/VolcengineTos.php:100-109 | the variables hold one to four entries and start with `x:upload_type` set to the upload type |
| TosUpload.GenPostObjParam | src/Lib/Vendor/VolcengineTos.php:203-252 | the form exists exactly when an upload host is configured, the error otherwise is the missing host, and the url is the host followed by the POST path of the object name |
| TosUpload.PolicyGet | src/Lib/Vendor/VolcengineTos.php:254-260 | the missing-parameter error is returned exactly when the title or the file type is empty; the host error exactly when both are given but no host is configured |
| TosUpload.PostObjParamShape | src/Lib/Vendor/VolcengineTos.php:242-251 | the form exists exactly when a host is configured; its url is the host followed by the POST path; its fields are the common fields unchanged and in order, then key, policy and x-tos-signature |
| TosUpload.PostFormReadsCommon | src/Lib/Vendor/VolcengineTos.php:244-250 | appending key, policy and x-tos-signature overwrites no common field |
| TosUpload.PostFormReadsAppended | src/Lib/Vendor/VolcengineTos.php:244-250 | after the merge, key, policy and x-tos-signature read back with the values appended |
| TosUpload.SignedFormValid | src/Lib/Vendor/VolcengineTos.php:151-169 | a form carrying the adapter's credential, algorithm, policy and signature passes the verifier's signature check |
| TosUpload.FormMeetsPolicy | src/Lib/Vendor/VolcengineTos.php:184-192 | a form whose fields carry the common values and key = dir meets every condition of the policy built from them |
| TosUpload.SignedFormAccepted | src/Lib/Vendor/VolcengineTos.php:238-251 | the merged form passes the signature check, carries the encoded policy, and meets every policy condition |
| TosUpload.PolicyGetAccepted | src/Lib/Vendor/VolcengineTos.php:254-260 | every form `policyGet` returns is accepted by a verifier that holds the secret key: valid signature, encoded policy document, all conditions met |
| TosUpload.PutSignedParams | src/Lib/Vendor/VolcengineTos.php:116-135 | the PUT request signs the generated object name with its leading '/'s removed, with method PUT, the vendor bucket and 3600 seconds; the `x-tos-callback` and `x-tos-callback-var` query values are the base64 JSON of the callback descriptor and of the callback variables |
| TosUpload.PutCallbackAsPost | src/Lib/Vendor/VolcengineTos.php:117-120 | whenever the POST form exists, the PUT request's `x-tos-callback` and `x-tos-callback-var` values equal the POST form's fields of the same name |
| TosUpload.VolcengineTos.GenPutSignedParams | src/Lib/Vendor/VolcengineTos.php:116-135 | the PUT arguments are produced exactly when the configuration check passes, they equal `PutSignedParams`, and the client is then selected with the vendor's region, endpoint and keys; a failed check changes nothing |
| TosUpload.VolcengineTos.constructor | src/Lib/Vendor/VolcengineTos.php:24-33 | the vendor configuration is kept and no upload type or client is selected yet |
| TosUpload.VolcengineTos.GenClient | src/Lib/Vendor/VolcengineTos.php:52-67 | when the configuration check passes, the upload configuration and the client settings (region, endpoint, ak, sk) are stored; otherwise nothing changes |
| TosUpload.VolcengineTos.ExtraFile | src/Lib/Vendor/VolcengineTos.php:307-321 | the record filled field by field equals `FileData` |
| TosFile.FileData | src/Lib/Vendor/VolcengineTos.php:307-321 | the file record has no repeated key |
| TosFile.FileDataTitle | src/Lib/Vendor/VolcengineTos.php:308-313 | the title is the given title when that is truthy; otherwise it is the last '/'-piece of the file name: a suffix without '/', preceded by '/' unless it is the whole name |
| TosFile.FileDataFields | src/Lib/Vendor/VolcengineTos.php:314-318 | url is the display host, '/' and the file name; size is passed through; security is 1 exactly when the flag is truthy and 0 otherwise; file is empty; the vendor type is recorded |
| TosFile.FilterTruthy | src/Lib/Vendor/VolcengineTos.php:298 | `array_filter` keeps only truthy strings, keeps every truthy element, and never grows the list; a one-element list is kept exactly when its element is truthy |
| TosFile.FilterTruthyAppend | src/Lib/Vendor/VolcengineTos.php:298 | filtering a concatenation is the concatenation of the filtered parts, so the kept elements stay in their order |
| TosFile.FilteredDimensions | src/Lib/Vendor/VolcengineTos.php:296-298 | prefixing the non-empty values and filtering keeps exactly `w_<width>` and then `h_<height>`, each when its value is truthy |
| TosFile.ResizeOptionCases | src/Lib/Vendor/VolcengineTos.php:294-301 | the option is `resize,m_fill,` followed by the dimensions joined with ','; each of the four truthy/falsy cases of width and height is written out |
| TosFile.ResizeOptionJoined | src/Lib/Vendor/VolcengineTos.php:294-301 | the option is the ','-join of `resize`, `m_fill` and the dimensions, or of an empty last piece when there are none |
| TosFile.ResizeOptionFields | src/Lib/Vendor/VolcengineTos.php:294-301 | when width and height contain no ',', splitting the option on ',' gives back `resize`, `m_fill` and exactly the dimensions in order (one empty piece when there are none) |
| TosFile.ResizeOption | src/Lib/Vendor/VolcengineTos.php:294-301 | the option starts with `resize,m_fill,` and is exactly that prefix when neither width nor height is truthy |
| TosFile.ResizeImg | src/Lib/Vendor/VolcengineTos.php:294-301 | the image url is the combiner applied to the url and `resize,m_fill,` followed by the truthy dimensions joined with ',' |
| TosFile.HandleTosUrl | src/Lib/Vendor/VolcengineTos.php:323-335 | protocol and key are the url's scheme and path; the bucket is the part of the host before its first '.', without '.' |
| TosFile.HostPieces | src/Lib/Vendor/VolcengineTos.php:329 | splitting `bucket.part.d2.d3` on '.' gives back its four labels |
| TosFile.HandleTosUrlSplit | src/Lib/Vendor/VolcengineTos.php:323-335 | protocol and key come from the url; bucket is the first host label; endpoint is the other three joined with '.'; region is the trimmed second label |
| TosFile.RegionAsWrittenTrimsTooMuch | src/Lib/Vendor/VolcengineTos.php:330 | as written, the label `tos-eu-west` gives the region `eu-we`, which differs from the region the label names |
| TosFile.RegionAsWrittenAgrees | src/Lib/Vendor/VolcengineTos.php:330 | for every non-empty region name, the written trim of `tos-<region>` gives the right region exactly when the name neither starts nor ends with `t`, `o`, `s` or `-` |
| TosFile.RegionOfLabel | src/Lib/Vendor/VolcengineTos.php:330 | the corrected region is the label without its `tos-` prefix, or the label itself when there is no such prefix |
| TosFile.RegionOfLabelRoundTrip | src/Lib/Vendor/VolcengineTos.php:330 | the corrected region recovers every region name from `tos-<region>` |
| TosFile.HandleTosUrlCorrectedRegion | src/Lib/Vendor/VolcengineTos.php:323-335 | with the correction, the region of `bucket.tos-<region>.d2.d3` is recovered for every region name, and every other field is unchanged |
| TosSign.SignDate | src/Lib/Vendor/VolcengineTos.php:171-173 | the signing date ends in 'Z' |
| TosSign.CredentialScope | src/Lib/Vendor/VolcengineTos.php:151-155 | the scope has four parts, the third `tos` and the last `request` |
| TosSign.Credential | src/Lib/Vendor/VolcengineTos.php:150-154 | the credential is the access key and the four scope parts joined with '/' |
| TosSign.CredentialParts | src/Lib/Vendor/VolcengineTos.php:151-155 | when the access key, date and region contain no '/', the credential is the access key and the scope joined with '/', and splitting it on '/' gives them back |
| TosSign.SignKeyDerivation | src/Lib/Vendor/VolcengineTos.php:157-165 | the four chained HMACs are the generic key derivation over the credential scope, and the key is 32 bytes |
| TosSign.SignKey | src/Lib/Vendor/VolcengineTos.php:157-165 | the signing key is a 32-byte binary string |
| TosSign.PostSignature | src/Lib/Vendor/VolcengineTos.php:167-169 | the signature is 64 lowercase hexadecimal digits |
| TosSign.SignatureInputs | src/Lib/Vendor/VolcengineTos.php:157-169 | two signing times with the same scope date give the same signature |
| TosSign.FieldConditions | src/Lib/Vendor/VolcengineTos.php:189-191 | one single-field condition per common field, in the fields' order |
| TosSign.Conditions | src/Lib/Vendor/VolcengineTos.php:184-192 | 2 + n conditions: the bucket, `starts-with $key dir`, then each common field as `{k: v}` in order |
| TosSign.Expiration | src/Lib/Vendor/VolcengineTos.php:180-182 | the expiration stamp ends in 'Z' |
| TosSign.PolicyDocument | src/Lib/Vendor/VolcengineTos.php:179-201 | the document holds `expiration` and then `conditions`, with the expiration stamp and the conditions list |
| TosSign.PostSignPolicyBinds | src/Lib/Vendor/VolcengineTos.php:179-201 | when JSON and base64 encoding lose nothing, equal signed policies name the same bucket, key prefix, fields in order and expiration |
| TosSign.ConditionsBind | src/Lib/Vendor/VolcengineTos.php:184-192 | equal condition lists name the same bucket, key prefix and fields in order |
| Codec.Hex2BinBin2Hex | src/Lib/Vendor/VolcengineTos.php:168 | the hexadecimal signature decodes back to the raw digest |
| Codec.HexSignatureShape | src/Lib/Vendor/VolcengineTos.php:168 | a hexadecimal signature has 64 digits and determines the digest |
| Php.LastPieceIsSuffix | src/Lib/Vendor/VolcengineTos.php:311-312 | `end(explode('/', s))` is a suffix of `s` without '/', preceded by '/' unless it is all of `s` |
| Php.Explode | src/Lib/Vendor/VolcengineTos.php:329 | `explode` gives at least one piece and no piece holds the separator |
| Php.ExplodeFirstPiece | src/Lib/Vendor/VolcengineTos.php:329-331 | the first piece is a prefix of the string that ends at the first separator, or is the whole string when there is none |
| Php.Implode | src/Lib/Vendor/VolcengineTos.php:298 | the join starts with its first piece and is at least one character per separator long |
| Php.ExplodeImplode | src/Lib/Vendor/VolcengineTos.php:329 | splitting the join of pieces without the separator gives the pieces back |
| Php.ImplodeExplode | src/Lib/Vendor/VolcengineTos.php:329 | joining the pieces of a split gives the string back |
| Php.Set | src/Lib/Vendor/VolcengineTos.php:308-318 | after `$a[$k] = $v`, `k` reads back as `v` and every other key reads as before |
| Php.AppendTo | src/Lib/Vendor/VolcengineTos.php:89-108 | after `.=`, `k` reads as its old value (or "" when missing) followed by the appended string, and every other key reads as before |
| Php.Merge | src/Lib/Vendor/VolcengineTos.php:244-251 | after `array_merge`, a key not in the second array reads as in the first, and every key of the second array is present |
| Php.AppendToAbsent | src/Lib/Vendor/VolcengineTos.php:102 | `.=` on a missing key adds the key at the end with the appended string |
| Php.AppendToPresent | src/Lib/Vendor/VolcengineTos.php:89 | `.=` on a present key extends its value in place |
| Php.MergeFresh | src/Lib/Vendor/VolcengineTos.php:244-250 | `array_merge` with new distinct keys appends them in order |
| Php.TrimShape | src/Lib/Vendor/VolcengineTos.php:330 | `trim` keeps a contiguous part whose ends are outside the set, and everything removed is in the set |
| Php.Trim | src/Lib/Vendor/VolcengineTos.php:330 | `trim` never grows the string, keeps no character of the set at either end, and gives "" exactly when every character is in the set |
| Php.LTrim | src/Lib/Vendor/VolcengineTos.php:132 | `ltrim` keeps a suffix whose first character is outside the set, and everything removed is in the set |

## Left out

- `signUrl`, `genSignedUrl` and `headObj` only call the TOS SDK client, which is not part of this model.
- The SDK call at the end of the PUT flow is left out, together with the signed url and headers it returns and the `try`/`echo` path that prints its exception. `PutSignedParams` stops at the arguments of that call.
- `extraObject`, `_extraObjectViaInput` and `_extraObjectViaHeadObj` read the request body or call the SDK. That is I/O, so they are not modelled. `_extraObjectMimeType` is a plain array read.
- `formatHeicToJpg` and `combineImgOpt` forward to `Common::combineTosUrlImgOpt`, which is not part of this model. `ResizeImg` takes that combiner as a parameter.
- `Common::checkUploadConfig`, `Common::genObjectName`, `Common::getCbUrlByType` and `C()` are not part of this model. They are parameters in `Helpers`.
- `date`, `hash_hmac`, `json_encode`, `base64_encode`, `urldecode` and `pathinfo` are parameters without a model of their internals. The HMAC output is a 32-byte digest, and only the hexadecimal encoding of the signature is modelled concretely.
- `microtime(true)` returns a float. The model takes an integer `now` instead, so sub-second truncation in `date` is not modelled.
- `env()` is not modelled: the constructor takes the vendor configuration as a parameter. `Context::VENDOR_VOLCENGINE_TOS` is also a parameter, the vendor type.
- `E()` throws. The model returns it as the `MissingRequiredParameter` error.
- When neither host key is set, the `:string` return type of `getUploadHost` raises a TypeError. The model returns it as the `HostNotConfigured` error.
- The expiration uses the `date` format `Y-m-d\TH:i:s.z`, whose `.z` is the day of the year rather than milliseconds. The model passes the format through to the uninterpreted `date` and says nothing about its meaning.
- `parse_url` is not modelled. `HandleTosUrl` takes the scheme, host and path it would return.
- TosUpload.VolcengineTos.GenPutSignedParams: a failed configuration check returns None. In the source, `genClient` then returns null and `->signUrl` on null at line 135 is a fatal Error, which the `catch (\RuntimeException)` at line 146 does not catch. The SDK call and the signed url and headers it returns are not modelled.
- TosSign.PostSignPolicy: `json_encode` and `base64_encode` are uninterpreted, so its contract is carried by `PolicyDocument` and by `PostSignPolicyBinds`, which assumes both encoders are injective.
- TosUpload.VolcengineTos.GenClient: returns a boolean in place of the client object or null. The `TosClient` instance is represented by the settings it is built with.

## Findings

| source | as written | input that shows it | evidently intended | confidence | as-written member | corrected member |
|---|---|---|---|---|---|---|
| src/Lib/Vendor/VolcengineTos.php:330 | `trim($host[1], 'tos-')` strips the characters `t`, `o`, `s` and `-` from both ends of the second host label | the host `bucket.tos-eu-west.example.com`: the second label `tos-eu-west` gives the region `eu-we` | strip the `tos-` prefix, giving `eu-west` | medium, not executed | TosFile.RegionAsWrittenTrimsTooMuch | TosFile.HandleTosUrlCorrectedRegion |
