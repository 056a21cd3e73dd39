/** The TOS4-HMAC-SHA256 pieces of the POST upload: the credential scope, the
    four-step signing-key derivation (date, region, service, "request"),
    the hexadecimal signature, and the policy document with its conditions.
    Beside them, a verifier's view of a signed form: the checks a storage
    service following the same published recipe applies to it. */
module TosSign {
  import opened Php
  import opened Codec

  const Algorithm := "TOS4-HMAC-SHA256"
  const Service := "tos"
  const ScopeTerminator := "request"
  /** Seconds between signing time and the policy's expiration. */
  const PolicyLifetime := 10

  /** The date part of the credential scope: `date('Ymd', $now)`. */
  function ScopeDate(p: Primitives, now: int): string
  {
    p.date("Ymd", now)
  }

  /** `x-tos-date`: `date('Ymd\THis', $now) . 'Z'`. */
  function SignDate(p: Primitives, now: int): (r: string)
    ensures |r| >= 1 && r[|r| - 1] == 'Z'
  {
    p.date("Ymd\\THis", now) + "Z"
  }

  /** The four scope components the signing key is derived from, in order. */
  function CredentialScope(p: Primitives, now: int, region: string): (scope: seq<string>)
    ensures |scope| == 4 && scope[2] == Service && scope[3] == ScopeTerminator
  {
    [ScopeDate(p, now), region, Service, ScopeTerminator]
  }

  /** `x-tos-credential`: `ak/date/region/tos/request`. */
  function Credential(p: Primitives, accessKey: string, now: int, region: string): (r: string)
    ensures r == Implode('/', [accessKey] + CredentialScope(p, now, region))
  {
    JoinedWithSlashes(accessKey, ScopeDate(p, now), region, Service, ScopeTerminator);
    assert [accessKey] + CredentialScope(p, now, region) == [accessKey, ScopeDate(p, now), region, Service, ScopeTerminator];
    accessKey + "/" + ScopeDate(p, now) + "/" + region + "/" + Service + "/" + ScopeTerminator
  }

  /** The credential is the access key followed by the scope, joined with '/';
      so, when none of its parts holds a '/', splitting it on '/' gives back
      exactly the access key and the scope the key was derived from. */
  lemma CredentialParts(p: Primitives, accessKey: string, now: int, region: string)
    requires '/' !in accessKey && '/' !in ScopeDate(p, now) && '/' !in region
    ensures Credential(p, accessKey, now, region) == Implode('/', [accessKey] + CredentialScope(p, now, region))
    ensures Explode('/', Credential(p, accessKey, now, region)) == [accessKey] + CredentialScope(p, now, region)
  {
    var parts := [accessKey] + CredentialScope(p, now, region);
    assert '/' !in Service && '/' !in ScopeTerminator;
    forall i | 0 <= i < |parts| ensures '/' !in parts[i] {
    }
    ExplodeImplode('/', parts);
  }

  lemma JoinedWithSlashes(a: string, b: string, c: string, d: string, e: string)
    ensures Implode('/', [a, b, c, d, e]) == a + "/" + b + "/" + c + "/" + d + "/" + e
  {
    var parts := [a, b, c, d, e];
    assert Implode('/', parts[4..]) == e;
    assert Implode('/', parts[3..]) == d + "/" + e;
    assert Implode('/', parts[2..]) == c + "/" + d + "/" + e;
    assert Implode('/', parts[1..]) == b + "/" + c + "/" + d + "/" + e;
  }

  /** The signing key as the adapter computes it: four chained raw
      HMAC-SHA256 steps, each step's key being the previous step's output. */
  function SignKey(p: Primitives, secretKey: string, now: int, region: string): (key: string)
    ensures |key| == 32
  {
    var dateKey := BinaryString(p.hmacSha256(ScopeDate(p, now), secretKey));
    var regionKey := BinaryString(p.hmacSha256(region, dateKey));
    var serviceKey := BinaryString(p.hmacSha256(Service, regionKey));
    BinaryString(p.hmacSha256(ScopeTerminator, serviceKey))
  }

  /** The V4-style derivation as a verifier runs it over any scope: fold HMAC
      over the scope components, starting from the secret key. */
  function DeriveKey(p: Primitives, key: string, scope: seq<string>): string
    decreases |scope|
  {
    if scope == [] then key else DeriveKey(p, BinaryString(p.hmacSha256(scope[0], key)), scope[1..])
  }

  /** The adapter's chain is the generic derivation over its own credential scope. */
  lemma {:induction false} SignKeyDerivation(p: Primitives, secretKey: string, now: int, region: string)
    ensures SignKey(p, secretKey, now, region) == DeriveKey(p, secretKey, CredentialScope(p, now, region))
    ensures |SignKey(p, secretKey, now, region)| == 32
  {
    var scope := CredentialScope(p, now, region);
    var k1 := BinaryString(p.hmacSha256(scope[0], secretKey));
    var k2 := BinaryString(p.hmacSha256(scope[1], k1));
    var k3 := BinaryString(p.hmacSha256(scope[2], k2));
    var k4 := BinaryString(p.hmacSha256(scope[3], k3));
    assert DeriveKey(p, k4, scope[4..]) == k4;
    assert DeriveKey(p, k3, scope[3..]) == DeriveKey(p, k4, scope[4..]);
    assert DeriveKey(p, k2, scope[2..]) == DeriveKey(p, k3, scope[3..]);
    assert DeriveKey(p, k1, scope[1..]) == DeriveKey(p, k2, scope[2..]);
    assert scope == scope[0..];
  }

  /** `hash_hmac('sha256', $string_to_sign, $signingKey)`: hexadecimal output. */
  function PostSignature(p: Primitives, secretKey: string, stringToSign: string, now: int, region: string): (sig: string)
    ensures |sig| == 64
    ensures forall i :: 0 <= i < |sig| ==> IsLowerHexDigit(sig[i])
  {
    Bin2Hex(p.hmacSha256(stringToSign, SignKey(p, secretKey, now, region)))
  }

  /** The signature depends on the secret key, the scope date, the region and
      the signed string only: not on the access key, the bucket, nor on the
      time of day within the same date. */
  lemma SignatureInputs(p: Primitives, secretKey: string, s: string, now1: int, now2: int, region: string)
    requires ScopeDate(p, now1) == ScopeDate(p, now2)
    ensures PostSignature(p, secretKey, s, now1, region) == PostSignature(p, secretKey, s, now2, region)
  {
  }

  // ---------------------------------------------------------------------------
  // Policy document

  /** One single-field condition `{k: v}` per form field, in the fields' order. */
  function FieldConditions(fields: Assoc<string>): (conds: seq<Json>)
    ensures |conds| == |fields|
    ensures forall i :: 0 <= i < |fields| ==> conds[i] == JObject([(fields[i].0, JStr(fields[i].1))])
  {
    if fields == [] then [] else [JObject([(fields[0].0, JStr(fields[0].1))])] + FieldConditions(fields[1..])
  }

  function BucketCondition(bucket: string): Json
  {
    JObject([("bucket", JStr(bucket))])
  }

  function KeyPrefixCondition(dir: string): Json
  {
    JList([JStr("starts-with"), JStr("$key"), JStr(dir)])
  }

  function Conditions(dir: string, bucket: string, fields: Assoc<string>): (conds: seq<Json>)
    ensures |conds| == 2 + |fields|
    ensures conds[0] == BucketCondition(bucket) && conds[1] == KeyPrefixCondition(dir)
    ensures forall i :: 0 <= i < |fields| ==> conds[i + 2] == JObject([(fields[i].0, JStr(fields[i].1))])
  {
    [BucketCondition(bucket), KeyPrefixCondition(dir)] + FieldConditions(fields)
  }

  /** The expiration stamp: `date('Y-m-d\TH:i:s.z', $now + 10) . 'Z'`. */
  function Expiration(p: Primitives, now: int): (r: string)
    ensures |r| >= 1 && r[|r| - 1] == 'Z'
  {
    p.date("Y-m-d\\TH:i:s.z", now + PolicyLifetime) + "Z"
  }

  /** The policy document before `json_encode`. */
  function PolicyDocument(p: Primitives, dir: string, now: int, bucket: string, fields: Assoc<string>): (doc: Json)
    ensures doc.JObject? && Keys(doc.fields) == ["expiration", "conditions"]
    ensures Get(doc.fields, "expiration") == Some(JStr(Expiration(p, now)))
    ensures Get(doc.fields, "conditions") == Some(JList(Conditions(dir, bucket, fields)))
  {
    JObject([("expiration", JStr(Expiration(p, now))), ("conditions", JList(Conditions(dir, bucket, fields)))])
  }

  /** `_genPostSignPolicy`: the base64 of the JSON policy document. */
  function PostSignPolicy(p: Primitives, dir: string, now: int, bucket: string, fields: Assoc<string>): string
  {
    p.base64Encode(p.jsonEncode(PolicyDocument(p, dir, now, bucket, fields)))
  }

  /** The signed policy binds the form: when `json_encode` and `base64_encode`
      lose no information, two equal policies name the same bucket, the same
      key prefix, the same fields with the same values in the same order, and
      the same expiration. */
  lemma PostSignPolicyBinds(p: Primitives, dir1: string, now1: int, bucket1: string, fields1: Assoc<string>,
                            dir2: string, now2: int, bucket2: string, fields2: Assoc<string>)
    requires forall x, y :: p.base64Encode(x) == p.base64Encode(y) ==> x == y
    requires forall x, y :: p.jsonEncode(x) == p.jsonEncode(y) ==> x == y
    requires PostSignPolicy(p, dir1, now1, bucket1, fields1) == PostSignPolicy(p, dir2, now2, bucket2, fields2)
    ensures bucket1 == bucket2 && dir1 == dir2 && fields1 == fields2
    ensures Expiration(p, now1) == Expiration(p, now2)
  {
    var d1 := PolicyDocument(p, dir1, now1, bucket1, fields1);
    var d2 := PolicyDocument(p, dir2, now2, bucket2, fields2);
    assert p.jsonEncode(d1) == p.jsonEncode(d2);
    assert d1.fields[0].1 == d2.fields[0].1;
    assert d1.fields[1].1 == d2.fields[1].1;
    ConditionsBind(dir1, bucket1, fields1, dir2, bucket2, fields2);
  }

  /** Equal condition lists name the same bucket, key prefix and fields. */
  lemma ConditionsBind(dir1: string, bucket1: string, fields1: Assoc<string>,
                       dir2: string, bucket2: string, fields2: Assoc<string>)
    requires Conditions(dir1, bucket1, fields1) == Conditions(dir2, bucket2, fields2)
    ensures bucket1 == bucket2 && dir1 == dir2 && fields1 == fields2
  {
    var c1, c2 := Conditions(dir1, bucket1, fields1), Conditions(dir2, bucket2, fields2);
    assert BucketCondition(bucket1).fields[0].1.s == bucket1;
    assert KeyPrefixCondition(dir1).items[2].s == dir1;
    assert |fields1| == |fields2|;
    forall i | 0 <= i < |fields1| ensures fields1[i] == fields2[i] {
      assert c1[i + 2] == c2[i + 2];
    }
  }

  // ---------------------------------------------------------------------------
  // What a verifier checks of a submitted form

  /** One policy condition holds of a form posted to `bucket`: a `bucket`
      entry names the bucket, any other single-field entry names a form field
      and its exact value, and `["starts-with", "$f", prefix]` asks form field
      `f` to begin with `prefix`. */
  predicate ConditionHolds(c: Json, bucket: string, form: Assoc<string>)
  {
    match c
    case JObject(fs) =>
      |fs| == 1 && fs[0].1.JStr? &&
      if fs[0].0 == "bucket" then fs[0].1.s == bucket else Get(form, fs[0].0) == Some(fs[0].1.s)
    case JList(items) =>
      |items| == 3 && items[0] == JStr("starts-with") && items[1].JStr? && items[2].JStr? &&
      |items[1].s| >= 1 && items[1].s[0] == '$' &&
      var v := Get(form, items[1].s[1..]);
      v.Some? && items[2].s <= v.value
    case JStr(_) => false
  }

  /** Every condition of the policy document holds of the form. */
  predicate FormSatisfiesPolicy(doc: Json, bucket: string, form: Assoc<string>)
  {
    doc.JObject? &&
    var c := Get<Json>(doc.fields, "conditions");
    c.Some? && c.value.JList? &&
    forall i :: 0 <= i < |c.value.items| ==> ConditionHolds(c.value.items[i], bucket, form)
  }

  /** The form's signature is the one a verifier recomputes: the algorithm is
      TOS4-HMAC-SHA256, the credential names `accessKey` and a
      `date/region/tos/request` scope, and the signature is the hexadecimal
      HMAC of the `policy` field under the key derived from `secretKey` over
      that scope. */
  predicate SignatureValid(p: Primitives, accessKey: string, secretKey: string, form: Assoc<string>)
  {
    var cred := Get(form, "x-tos-credential");
    var policy := Get(form, "policy");
    var sig := Get(form, "x-tos-signature");
    Get(form, "x-tos-algorithm") == Some(Algorithm) && cred.Some? && policy.Some? && sig.Some? &&
    var parts := Explode('/', cred.value);
    |parts| == 5 && parts[0] == accessKey && parts[3] == Service && parts[4] == ScopeTerminator &&
    sig.value == Bin2Hex(p.hmacSha256(policy.value, DeriveKey(p, secretKey, parts[1..])))
  }
}
