/** Byte strings, the hexadecimal output of `hash_hmac`, the JSON values the
    adapter serialises, and the PHP built-ins the adapter calls but whose
    internals are not part of this model (date formatting, HMAC-SHA256,
    `json_encode`, `base64_encode`, `urldecode`, `pathinfo`). */
module Codec {

  type byte = x: int | 0 <= x < 256

  /** A raw SHA-256 HMAC: 32 bytes. */
  type Digest = s: seq<byte> | |s| == 32 witness seq(32, i => 0)

  /** A raw binary string: one character per byte, as PHP holds
      `hash_hmac(..., true)` output. */
  function BinaryString(bs: seq<byte>): (r: string)
    ensures |r| == |bs|
    ensures forall i :: 0 <= i < |bs| ==> r[i] as int == bs[i]
  {
    seq(|bs|, i requires 0 <= i < |bs| => bs[i] as char)
  }

  predicate IsLowerHexDigit(c: char)
  {
    '0' <= c <= '9' || 'a' <= c <= 'f'
  }

  function HexDigit(d: nat): (c: char)
    requires d < 16
    ensures IsLowerHexDigit(c)
  {
    if d < 10 then ('0' as int + d) as char else ('a' as int + d - 10) as char
  }

  function HexValue(c: char): (d: nat)
    requires IsLowerHexDigit(c)
    ensures d < 16
  {
    if c <= '9' then c as int - '0' as int else c as int - 'a' as int + 10
  }

  lemma HexValueOfDigit(d: nat)
    requires d < 16
    ensures HexValue(HexDigit(d)) == d
  {
  }

  /** `bin2hex`: each byte as two lowercase hexadecimal digits, high nibble
      first; this is what `hash_hmac` returns when raw output is not asked for. */
  function Bin2Hex(bs: seq<byte>): (r: string)
    ensures |r| == 2 * |bs|
    ensures forall i :: 0 <= i < |r| ==> IsLowerHexDigit(r[i])
  {
    if bs == [] then "" else [HexDigit(bs[0] / 16), HexDigit(bs[0] % 16)] + Bin2Hex(bs[1..])
  }

  /** `hex2bin` on well-formed input. */
  function Hex2Bin(s: string): seq<byte>
    requires |s| % 2 == 0
    requires forall i :: 0 <= i < |s| ==> IsLowerHexDigit(s[i])
  {
    if s == [] then [] else [16 * HexValue(s[0]) + HexValue(s[1])] + Hex2Bin(s[2..])
  }

  lemma {:induction false} Hex2BinBin2Hex(bs: seq<byte>)
    ensures Hex2Bin(Bin2Hex(bs)) == bs
  {
    if bs != [] {
      var h := Bin2Hex(bs);
      HexValueOfDigit(bs[0] / 16);
      HexValueOfDigit(bs[0] % 16);
      assert h[2..] == Bin2Hex(bs[1..]);
      Hex2BinBin2Hex(bs[1..]);
    }
  }

  /** A hexadecimal HMAC signature is 64 lowercase hex digits and determines
      the raw digest. */
  lemma HexSignatureShape(d: Digest)
    ensures |Bin2Hex(d)| == 64
    ensures forall e: Digest :: Bin2Hex(e) == Bin2Hex(d) ==> e == d
  {
    forall e: Digest | Bin2Hex(e) == Bin2Hex(d) ensures e == d {
      Hex2BinBin2Hex(d);
      Hex2BinBin2Hex(e);
    }
  }

  /** The JSON values the adapter passes to `json_encode`: strings, lists and
      objects with keys in insertion order. */
  datatype Json = JStr(s: string) | JList(items: seq<Json>) | JObject(fields: seq<(string, Json)>)

  /** The PHP built-ins used by the adapter, as total functions of their inputs. */
  datatype Primitives = Primitives(
    date: (string, int) -> string,          // date($format, $timestamp)
    hmacSha256: (string, string) -> Digest, // hash_hmac('sha256', $data, $key, true)
    jsonEncode: Json -> string,             // json_encode
    base64Encode: string -> string,         // base64_encode
    urlDecode: string -> string,            // urldecode
    pathExtension: string -> string)        // pathinfo($path, PATHINFO_EXTENSION), "" when absent
}
