/** PHP value semantics that the adapter relies on: scalar values and their
    truthiness, string coercion, ordered string-keyed arrays, `explode`,
    and `ltrim`/`rtrim`/`trim` with a character list. */
module Php {

  datatype Option<+T> = None | Some(value: T)

  /** A scalar PHP value, as found in configuration arrays and in parsed bodies. */
  datatype Value = Null | Bool(b: bool) | Int(i: int) | Str(s: string)

  /** PHP's truthiness of a string: only "" and "0" are falsy. */
  predicate TruthyStr(s: string)
  {
    s != "" && s != "0"
  }

  /** PHP's truthiness of a scalar value (`if ($v)`, `$v ? a : b`, `!empty($v)`). */
  predicate Truthy(v: Value)
  {
    match v
    case Null => false
    case Bool(b) => b
    case Int(i) => i != 0
    case Str(s) => TruthyStr(s)
  }

  function DigitChar(d: nat): (c: char)
    requires d < 10
    ensures '0' <= c <= '9' && c as int - '0' as int == d
  {
    ('0' as int + d) as char
  }

  /** Decimal notation of a natural number, most significant digit first. */
  function NatToString(n: nat): (r: string)
    ensures |r| >= 1
    ensures forall i :: 0 <= i < |r| ==> '0' <= r[i] <= '9'
    ensures n < 10 <==> |r| == 1
    decreases n
  {
    if n < 10 then [DigitChar(n)] else NatToString(n / 10) + [DigitChar(n % 10)]
  }

  /** Value of a string of decimal digits. */
  function DigitsValue(s: string): nat
    requires forall i :: 0 <= i < |s| ==> '0' <= s[i] <= '9'
  {
    if s == [] then 0 else 10 * DigitsValue(s[..|s| - 1]) + (s[|s| - 1] as int - '0' as int)
  }

  lemma {:induction false} NatToStringValue(n: nat)
    ensures DigitsValue(NatToString(n)) == n
    decreases n
  {
    var r := NatToString(n);
    if n >= 10 {
      NatToStringValue(n / 10);
      assert r[..|r| - 1] == NatToString(n / 10);
      assert r[|r| - 1] as int - '0' as int == n % 10;
      assert DigitsValue(r) == 10 * (n / 10) + n % 10;
    }
  }

  /** PHP's conversion of an integer to a string: optional minus sign, then the digits. */
  function IntToString(i: int): (r: string)
    ensures |r| >= 1
    ensures i < 0 <==> r[0] == '-'
  {
    if i < 0 then "-" + NatToString(-i) else NatToString(i)
  }

  /** PHP's conversion of a scalar to a string, as done by `.` concatenation:
      null and false become "", true becomes "1". */
  function ToStr(v: Value): string
  {
    match v
    case Null => ""
    case Bool(b) => if b then "1" else ""
    case Int(i) => IntToString(i)
    case Str(s) => s
  }

  /** Coercion of a value returned from a function declared `: string` without
      strict types: null is a TypeError (None), other scalars are converted. */
  function CoerceToString(v: Value): (r: Option<string>)
    ensures r.None? <==> v.Null?
    ensures v.Str? ==> r == Some(v.s)
  {
    if v.Null? then None else Some(ToStr(v))
  }

  /** `$config[$key]` on a configuration array: a missing key reads as null. */
  function Lookup(config: map<string, Value>, key: string): Value
  {
    if key in config then config[key] else Null
  }

  // ---------------------------------------------------------------------------
  // Ordered arrays with string keys

  /** A PHP array whose keys are strings: pairs in insertion order. */
  type Assoc<V> = seq<(string, V)>

  function Keys<V>(a: Assoc<V>): (ks: seq<string>)
    ensures |ks| == |a|
    ensures forall i :: 0 <= i < |a| ==> ks[i] == a[i].0
  {
    if a == [] then [] else [a[0].0] + Keys(a[1..])
  }

  predicate DistinctKeys<V>(a: Assoc<V>)
  {
    forall i, j :: 0 <= i < j < |a| ==> a[i].0 != a[j].0
  }

  /** `$a[$k]`: the value stored under `k`, if any. */
  function Get<V>(a: Assoc<V>, k: string): (r: Option<V>)
    ensures r.Some? <==> k in Keys(a)
  {
    if a == [] then None else if a[0].0 == k then Some(a[0].1) else Get(a[1..], k)
  }

  /** `$a[$k] = $v`: an existing key keeps its position and gets the new
      value; a new key is appended at the end. */
  function Set<V>(a: Assoc<V>, k: string, v: V): (r: Assoc<V>)
    ensures forall k' {:trigger Get(r, k')} :: Get(r, k') == if k' == k then Some(v) else Get(a, k')
  {
    if a == [] then [(k, v)]
    else if a[0].0 == k then [(k, v)] + a[1..]
    else [a[0]] + Set(a[1..], k, v)
  }

  /** `$a[$k] .= $s`: appends to the string under `k`; a missing key reads as
      null, which concatenates as "". */
  function AppendTo(a: Assoc<string>, k: string, s: string): (r: Assoc<string>)
    ensures Get(a, k).Some? ==> Get(r, k) == Some(Get(a, k).value + s)
    ensures Get(a, k).None? ==> Get(r, k) == Some(s)
    ensures forall k' {:trigger Get(r, k')} :: k' != k ==> Get(r, k') == Get(a, k')
  {
    var old_ := match Get(a, k) case Some(x) => x case None => "";
    assert "" + s == s;
    Set(a, k, old_ + s)
  }

  /** `array_merge($a, $b)` for string keys: every pair of `b` in order is
      assigned into `a`, so a later value wins and keeps the earlier position. */
  function Merge<V>(a: Assoc<V>, b: Assoc<V>): (r: Assoc<V>)
    ensures forall k {:trigger Get(r, k)} :: k !in Keys(b) ==> Get(r, k) == Get(a, k)
    ensures forall k {:trigger Get(r, k)} :: k in Keys(b) ==> Get(r, k).Some?
    decreases |b|
  {
    if b == [] then a else Merge(Set(a, b[0].0, b[0].1), b[1..])
  }

  lemma {:induction false} GetAt<V>(a: Assoc<V>, j: nat)
    requires DistinctKeys(a) && j < |a|
    ensures Get(a, a[j].0) == Some(a[j].1)
  {
    if j > 0 {
      assert a[0].0 != a[j].0;
      assert a[1..][j - 1] == a[j];
      GetAt(a[1..], j - 1);
    }
  }

  lemma {:induction false} GetAppendLeft<V>(a: Assoc<V>, b: Assoc<V>, k: string)
    requires k in Keys(a)
    ensures Get(a + b, k) == Get(a, k)
  {
    if a[0].0 != k {
      assert (a + b)[1..] == a[1..] + b;
      GetAppendLeft(a[1..], b, k);
    }
  }

  lemma {:induction false} GetAppendRight<V>(a: Assoc<V>, b: Assoc<V>, k: string)
    requires k !in Keys(a)
    ensures Get(a + b, k) == Get(b, k)
  {
    if a != [] {
      assert Keys(a) == [a[0].0] + Keys(a[1..]);
      assert (a + b)[0] == a[0];
      assert (a + b)[1..] == a[1..] + b;
      GetAppendRight(a[1..], b, k);
    } else {
      assert a + b == b;
    }
  }

  /** Assigning a key that is not yet present appends the pair. */
  lemma {:induction false} SetAbsent<V>(a: Assoc<V>, k: string, v: V)
    requires k !in Keys(a)
    ensures Set(a, k, v) == a + [(k, v)]
  {
    if a != [] {
      assert Keys(a) == [a[0].0] + Keys(a[1..]);
      SetAbsent(a[1..], k, v);
    }
  }

  /** Lookups of a key that no pair of `a` uses skip `a`. */
  lemma GetSkipping<V>(a: Assoc<V>, b: Assoc<V>, k: string)
    requires forall i :: 0 <= i < |a| ==> a[i].0 != k
    ensures Get(a + b, k) == Get(b, k)
  {
    assert k !in Keys(a);
    GetAppendRight(a, b, k);
  }

  lemma GetOfThree<V>(k0: string, v0: V, k1: string, v1: V, k2: string, v2: V)
    requires k0 != k1 && k0 != k2 && k1 != k2
    ensures Get([(k0, v0), (k1, v1), (k2, v2)], k0) == Some(v0)
    ensures Get([(k0, v0), (k1, v1), (k2, v2)], k1) == Some(v1)
    ensures Get([(k0, v0), (k1, v1), (k2, v2)], k2) == Some(v2)
  {
    var b := [(k0, v0), (k1, v1), (k2, v2)];
    assert b[1..] == [(k1, v1), (k2, v2)];
    assert b[1..][1..] == [(k2, v2)];
    assert Get(b[1..], k2) == Get([(k2, v2)], k2) == Some(v2);
  }

  /** Three pairs with distinct keys appended after pairs using none of
      those keys all read back with their values. */
  lemma GetAppendedThree<V>(a: Assoc<V>, k0: string, v0: V, k1: string, v1: V, k2: string, v2: V)
    requires k0 != k1 && k0 != k2 && k1 != k2
    requires forall i :: 0 <= i < |a| ==> a[i].0 != k0 && a[i].0 != k1 && a[i].0 != k2
    ensures Get(a + [(k0, v0), (k1, v1), (k2, v2)], k0) == Some(v0)
    ensures Get(a + [(k0, v0), (k1, v1), (k2, v2)], k1) == Some(v1)
    ensures Get(a + [(k0, v0), (k1, v1), (k2, v2)], k2) == Some(v2)
  {
    var b := [(k0, v0), (k1, v1), (k2, v2)];
    GetOfThree(k0, v0, k1, v1, k2, v2);
    GetSkipping(a, b, k0);
    GetSkipping(a, b, k1);
    GetSkipping(a, b, k2);
  }

  /** `array_merge` with three pairs of distinct new keys appends them. */
  lemma MergeThreeFresh<V>(a: Assoc<V>, k0: string, v0: V, k1: string, v1: V, k2: string, v2: V)
    requires k0 != k1 && k0 != k2 && k1 != k2
    requires forall i :: 0 <= i < |a| ==> a[i].0 != k0 && a[i].0 != k1 && a[i].0 != k2
    ensures Merge(a, [(k0, v0), (k1, v1), (k2, v2)]) == a + [(k0, v0), (k1, v1), (k2, v2)]
  {
    ThreeDistinctKeys(k0, v0, k1, v1, k2, v2);
    ThreeFresh(a, k0, v0, k1, v1, k2, v2);
    MergeFresh(a, [(k0, v0), (k1, v1), (k2, v2)]);
  }

  lemma ThreeFresh<V>(a: Assoc<V>, k0: string, v0: V, k1: string, v1: V, k2: string, v2: V)
    requires forall i :: 0 <= i < |a| ==> a[i].0 != k0 && a[i].0 != k1 && a[i].0 != k2
    ensures var b := [(k0, v0), (k1, v1), (k2, v2)];
      forall i, j :: 0 <= i < |a| && 0 <= j < |b| ==> a[i].0 != b[j].0
  {
    var b := [(k0, v0), (k1, v1), (k2, v2)];
    forall i, j | 0 <= i < |a| && 0 <= j < |b| ensures a[i].0 != b[j].0 {
      assert b[j].0 == k0 || b[j].0 == k1 || b[j].0 == k2;
    }
  }

  lemma ThreeDistinctKeys<V>(k0: string, v0: V, k1: string, v1: V, k2: string, v2: V)
    requires k0 != k1 && k0 != k2 && k1 != k2
    ensures DistinctKeys([(k0, v0), (k1, v1), (k2, v2)])
  {
  }

  /** Assigning a key that no pair uses appends the pair. */
  lemma SetFresh<V>(a: Assoc<V>, k: string, v: V)
    requires forall i :: 0 <= i < |a| ==> a[i].0 != k
    ensures Set(a, k, v) == a + [(k, v)]
  {
    SetAbsent(a, k, v);
  }

  /** Assigning the pairs of an array with distinct keys one by one, in
      order, rebuilds it: after the first `k`, the next assignment appends. */
  lemma SetNext<V>(d: Assoc<V>, k: nat)
    requires DistinctKeys(d) && k < |d|
    ensures Set(d[..k], d[k].0, d[k].1) == d[..k + 1]
  {
    forall i | 0 <= i < k ensures d[..k][i].0 != d[k].0 {
    }
    SetFresh(d[..k], d[k].0, d[k].1);
    assert d[..k] + [d[k]] == d[..k + 1];
  }

  lemma TakeWhole<T>(s: seq<T>, n: nat)
    requires |s| == n
    ensures s[..n] == s
  {
  }

  /** Assigning a key that is present changes its value and nothing else. */
  lemma {:induction false} SetPresent<V>(a: Assoc<V>, j: nat, v: V)
    requires DistinctKeys(a) && j < |a|
    ensures Set(a, a[j].0, v) == a[j := (a[j].0, v)]
  {
    if j > 0 {
      assert a[0].0 != a[j].0;
      assert a[1..][j - 1] == a[j];
      assert DistinctKeys(a[1..]) by {
        forall p, q | 0 <= p < q < |a[1..]| ensures a[1..][p].0 != a[1..][q].0 {
          assert a[1..][p] == a[p + 1] && a[1..][q] == a[q + 1];
        }
      }
      SetPresent(a[1..], j - 1, v);
    }
  }

  /** `.=` on a key that is present appends to its value in place. */
  lemma AppendToPresent(a: Assoc<string>, j: nat, s: string)
    requires DistinctKeys(a) && j < |a|
    ensures AppendTo(a, a[j].0, s) == a[j := (a[j].0, a[j].1 + s)]
  {
    GetAt(a, j);
    SetPresent(a, j, a[j].1 + s);
  }

  /** `.=` on a missing key adds the key at the end with the appended string. */
  lemma AppendToAbsent(a: Assoc<string>, k: string, s: string)
    requires forall i :: 0 <= i < |a| ==> a[i].0 != k
    ensures AppendTo(a, k, s) == a + [(k, s)]
  {
    assert k !in Keys(a);
    SetAbsent(a, k, "" + s);
    assert "" + s == s;
  }

  /** A one-pair array when `present`, the empty array otherwise. */
  function Optional<V>(present: bool, k: string, v: V): Assoc<V>
  {
    if present then [(k, v)] else []
  }

  /** `if ($present) $a[$k] .= $v;` on an array without key `k` appends the pair. */
  lemma AppendOptional(a: Assoc<string>, present: bool, k: string, v: string)
    requires forall i :: 0 <= i < |a| ==> a[i].0 != k
    ensures (if present then AppendTo(a, k, v) else a) == a + Optional(present, k, v)
  {
    if present {
      AppendToAbsent(a, k, v);
    }
  }

  lemma KeysAppend<V>(a: Assoc<V>, b: Assoc<V>)
    ensures Keys(a + b) == Keys(a) + Keys(b)
  {
    assert |Keys(a + b)| == |Keys(a) + Keys(b)|;
    forall i | 0 <= i < |a + b| ensures Keys(a + b)[i] == (Keys(a) + Keys(b))[i] {
      if i < |a| { assert (a + b)[i] == a[i]; } else { assert (a + b)[i] == b[i - |a|]; }
    }
  }

  /** Appending an optional entry under another key leaves lookups unchanged. */
  lemma GetOptionalOther<V>(a: Assoc<V>, b: bool, k': string, v: V, k: string)
    requires k != k'
    ensures Get(a + Optional(b, k', v), k) == Get(a, k)
  {
    if b {
      if k in Keys(a) {
        GetAppendLeft(a, [(k', v)], k);
      } else {
        GetAppendRight(a, [(k', v)], k);
      }
    } else {
      assert a + Optional(b, k', v) == a;
    }
  }

  /** Appending an optional entry under a new key makes it readable exactly
      when it is present. */
  lemma GetOptionalSelf<V>(a: Assoc<V>, b: bool, k: string, v: V)
    requires k !in Keys(a)
    ensures Get(a + Optional(b, k, v), k) == if b then Some(v) else None
  {
    GetAppendRight(a, Optional(b, k, v), k);
  }

  /** Appending an optional entry under a new key keeps the keys distinct. */
  lemma DistinctOptional<V>(a: Assoc<V>, b: bool, k: string, v: V)
    requires DistinctKeys(a) && k !in Keys(a)
    ensures DistinctKeys(a + Optional(b, k, v))
    ensures Keys(a + Optional(b, k, v)) == Keys(a) + (if b then [k] else [])
  {
    KeysAppend(a, Optional(b, k, v));
    var c := a + Optional(b, k, v);
    forall i, j | 0 <= i < j < |c| ensures c[i].0 != c[j].0 {
      if j >= |a| {
        assert c[j].0 == k;
        assert c[i] == a[i] && Keys(a)[i] == a[i].0;
      } else {
        assert c[i] == a[i] && c[j] == a[j];
      }
    }
  }

  /** `array_merge` with fresh, distinct keys appends, overwriting nothing. */
  lemma {:induction false} MergeFresh<V>(a: Assoc<V>, b: Assoc<V>)
    requires DistinctKeys(b)
    requires forall i, j :: 0 <= i < |a| && 0 <= j < |b| ==> a[i].0 != b[j].0
    ensures Merge(a, b) == a + b
    decreases |b|
  {
    if b != [] {
      var k := b[0].0;
      assert k !in Keys(a);
      SetAbsent(a, k, b[0].1);
      var a', b' := a + [b[0]], b[1..];
      FreshShift(a, b);
      MergeFresh(a', b');
      ShiftConcat(a, b);
    }
  }

  lemma ShiftConcat<T>(a: seq<T>, b: seq<T>)
    requires b != []
    ensures (a + [b[0]]) + b[1..] == a + b
  {
    assert [b[0]] + b[1..] == b;
  }

  /** Moving the first fresh pair of `b` onto `a` keeps the premises of `MergeFresh`. */
  lemma FreshShift<V>(a: Assoc<V>, b: Assoc<V>)
    requires b != [] && DistinctKeys(b)
    requires forall i, j :: 0 <= i < |a| && 0 <= j < |b| ==> a[i].0 != b[j].0
    ensures DistinctKeys(b[1..])
    ensures forall i, j :: 0 <= i < |a| + 1 && 0 <= j < |b| - 1 ==> (a + [b[0]])[i].0 != b[1..][j].0
  {
    var a', b' := a + [b[0]], b[1..];
    forall p, q | 0 <= p < q < |b'| ensures b'[p].0 != b'[q].0 {
      assert b'[p] == b[p + 1] && b'[q] == b[q + 1];
    }
    forall i, j | 0 <= i < |a'| && 0 <= j < |b'| ensures a'[i].0 != b'[j].0 {
      assert b'[j] == b[j + 1];
      if i == |a| {
        assert a'[i] == b[0];
      } else {
        assert a'[i] == a[i];
      }
    }
  }

  // ---------------------------------------------------------------------------
  // explode / implode on a one-character separator

  /** `explode($sep, $s)`: the pieces between separators; never empty
      (`explode('/', '')` is `['']`). */
  function Explode(sep: char, s: string): (parts: seq<string>)
    ensures |parts| >= 1
    ensures forall i :: 0 <= i < |parts| ==> sep !in parts[i]
  {
    if s == [] then [""]
    else
      var rest := Explode(sep, s[1..]);
      if s[0] == sep then [""] + rest
      else [[s[0]] + rest[0]] + rest[1..]
  }

  /** `implode($sep, $parts)`. */
  /** The first piece of a split runs up to the first separator. */
  lemma {:induction false} ExplodeFirstPiece(sep: char, s: string)
    ensures Explode(sep, s)[0] <= s
    ensures |Explode(sep, s)| > 1 ==> |Explode(sep, s)[0]| < |s| && s[|Explode(sep, s)[0]|] == sep
    ensures |Explode(sep, s)| == 1 ==> Explode(sep, s)[0] == s
  {
    if s != [] && s[0] != sep {
      ExplodeFirstPiece(sep, s[1..]);
      assert s == [s[0]] + s[1..];
    }
  }

  function Implode(sep: char, parts: seq<string>): (r: string)
    requires |parts| >= 1
    ensures parts[0] <= r
    ensures |r| >= |parts| - 1
  {
    if |parts| == 1 then parts[0] else parts[0] + [sep] + Implode(sep, parts[1..])
  }

  lemma {:induction false} ImplodeExplode(sep: char, s: string)
    ensures Implode(sep, Explode(sep, s)) == s
  {
    if s != [] {
      var rest := Explode(sep, s[1..]);
      ImplodeExplode(sep, s[1..]);
      if s[0] == sep {
        assert Explode(sep, s)[1..] == rest;
      } else {
        var parts := Explode(sep, s);
        if |rest| == 1 {
          assert parts == [[s[0]] + rest[0]];
        } else {
          assert parts[1..] == rest[1..];
          assert Implode(sep, rest) == rest[0] + [sep] + Implode(sep, rest[1..]);
        }
      }
    }
  }

  lemma {:induction false} ExplodeImplode(sep: char, parts: seq<string>)
    requires |parts| >= 1
    requires forall i :: 0 <= i < |parts| ==> sep !in parts[i]
    ensures Explode(sep, Implode(sep, parts)) == parts
    decreases |parts|, |parts[0]|
  {
    var p := parts[0];
    if p == [] {
      if |parts| > 1 {
        ExplodeImplode(sep, parts[1..]);
        assert Implode(sep, parts) == [sep] + Implode(sep, parts[1..]);
        ExplodeAfterSep(sep, Implode(sep, parts[1..]));
      }
    } else {
      var tail := [p[1..]] + parts[1..];
      assert sep !in p[1..] by { assert forall x :: x in p[1..] ==> x in p; }
      assert tail[0] == p[1..] && tail[1..] == parts[1..];
      ExplodeImplode(sep, tail);
      ImplodeShiftHead(sep, parts);
      ExplodeAfterChar(sep, p[0], Implode(sep, tail));
      assert [p[0]] + p[1..] == p;
    }
  }

  lemma ExplodeAfterSep(sep: char, t: string)
    ensures Explode(sep, [sep] + t) == [""] + Explode(sep, t)
  {
    assert ([sep] + t)[1..] == t;
  }

  lemma ExplodeAfterChar(sep: char, c: char, t: string)
    requires c != sep
    ensures Explode(sep, [c] + t) == [[c] + Explode(sep, t)[0]] + Explode(sep, t)[1..]
  {
    assert ([c] + t)[1..] == t;
  }

  /** Moving the first character of the first part out of the join. */
  lemma ImplodeShiftHead(sep: char, parts: seq<string>)
    requires |parts| >= 1 && parts[0] != []
    ensures Implode(sep, parts) == [parts[0][0]] + Implode(sep, [parts[0][1..]] + parts[1..])
  {
    var p := parts[0];
    var tail := [p[1..]] + parts[1..];
    assert p == [p[0]] + p[1..];
    if |parts| > 1 {
      assert tail[1..] == parts[1..];
    }
  }

  /** Each string preceded by the separator, all concatenated. */
  function SepPrefixed(sep: char, fields: seq<string>): string
  {
    if fields == [] then "" else [sep] + fields[0] + SepPrefixed(sep, fields[1..])
  }

  lemma {:induction false} SepPrefixedAppend(sep: char, a: seq<string>, b: seq<string>)
    ensures SepPrefixed(sep, a + b) == SepPrefixed(sep, a) + SepPrefixed(sep, b)
  {
    if a == [] {
      assert a + b == b;
    } else {
      assert (a + b)[1..] == a[1..] + b;
      SepPrefixedAppend(sep, a[1..], b);
    }
  }

  /** Imploding more parts appends each of them after a separator. */
  lemma {:induction false} ImplodeAppend(sep: char, parts: seq<string>, rest: seq<string>)
    requires |parts| >= 1
    ensures Implode(sep, parts + rest) == Implode(sep, parts) + SepPrefixed(sep, rest)
    decreases |parts| + |rest|
  {
    if |parts| == 1 {
      if rest != [] {
        assert (parts + rest)[1..] == rest;
        ImplodeAppend(sep, rest[..1], rest[1..]);
        assert rest[..1] + rest[1..] == rest;
        assert SepPrefixed(sep, rest) == [sep] + rest[0] + SepPrefixed(sep, rest[1..]);
      } else {
        assert parts + rest == parts;
      }
    } else {
      assert (parts + rest)[1..] == parts[1..] + rest;
      ImplodeAppend(sep, parts[1..], rest);
    }
  }

  /** `end(explode('/', $s))`: the last piece of `s`. It is a suffix of `s`
      holding no separator, and it is all of `s` or preceded by a separator. */
  function LastPiece(sep: char, s: string): string
  {
    var parts := Explode(sep, s);
    parts[|parts| - 1]
  }

  lemma {:induction false} LastPieceIsSuffix(sep: char, s: string)
    ensures sep !in LastPiece(sep, s)
    ensures |LastPiece(sep, s)| <= |s|
    ensures s[|s| - |LastPiece(sep, s)|..] == LastPiece(sep, s)
    ensures |LastPiece(sep, s)| < |s| ==> s[|s| - |LastPiece(sep, s)| - 1] == sep
    ensures |Explode(sep, s)| == 1 ==> LastPiece(sep, s) == s
    ensures |Explode(sep, s)| > 1 ==> |LastPiece(sep, s)| < |s|
  {
    if s != [] {
      LastPieceIsSuffix(sep, s[1..]);
      var rest := Explode(sep, s[1..]);
      var parts := Explode(sep, s);
      var r := LastPiece(sep, s[1..]);
      if s[0] == sep {
        assert parts[|parts| - 1] == r;
        assert s[|s| - |r|..] == s[1..][|s| - 1 - |r|..];
      } else if |rest| == 1 {
        assert parts == [[s[0]] + rest[0]];
        assert r == s[1..];
        assert [s[0]] + s[1..] == s;
      } else {
        assert parts[|parts| - 1] == r;
        assert s[|s| - |r|..] == s[1..][|s| - 1 - |r|..];
        assert s[|s| - |r| - 1] == s[1..][|s| - 1 - |r| - 1];
      }
    }
  }

  // ---------------------------------------------------------------------------
  // ltrim / rtrim / trim with a character list

  /** `ltrim($s, $chars)`: drop every leading character that is in `chars`. */
  function LTrim(s: string, chars: set<char>): (r: string)
    ensures |r| <= |s| && r == s[|s| - |r|..]
    ensures forall i :: 0 <= i < |s| - |r| ==> s[i] in chars
    ensures r == [] || r[0] !in chars
  {
    if s != [] && s[0] in chars then LTrim(s[1..], chars) else s
  }

  /** `rtrim($s, $chars)`: drop every trailing character that is in `chars`. */
  function RTrim(s: string, chars: set<char>): (r: string)
    ensures |r| <= |s| && r == s[..|r|]
    ensures forall i :: |r| <= i < |s| ==> s[i] in chars
    ensures r == [] || r[|r| - 1] !in chars
  {
    if s != [] && s[|s| - 1] in chars then RTrim(s[..|s| - 1], chars) else s
  }

  /** `trim($s, $chars)`: both ends. */
  function Trim(s: string, chars: set<char>): (r: string)
    ensures |r| <= |s|
    ensures r == [] || (r[0] !in chars && r[|r| - 1] !in chars)
    ensures r == [] <==> forall i :: 0 <= i < |s| ==> s[i] in chars
  {
    RTrim(LTrim(s, chars), chars)
  }

  /** Where the part `trim` keeps starts. */
  function TrimStart(s: string, chars: set<char>): nat
  {
    |s| - |LTrim(s, chars)|
  }

  /** What `trim` keeps is the part of `s` from `TrimStart` on whose two
      ends are not in `chars`; every character removed from either side is
      in `chars`. */
  lemma {:induction false} TrimShape(s: string, chars: set<char>)
    ensures var lo, t := TrimStart(s, chars), Trim(s, chars);
      && lo + |t| <= |s|
      && t == s[lo..lo + |t|]
      && (forall i :: 0 <= i < lo ==> s[i] in chars)
      && (forall i :: lo + |t| <= i < |s| ==> s[i] in chars)
      && (t == [] || t[0] !in chars)
      && (t == [] || t[|t| - 1] !in chars)
  {
    TrimSlice(s, chars);
    TrimRemoved(s, chars);
    TrimEnds(s, chars);
  }

  lemma TrimSlice(s: string, chars: set<char>)
    ensures var lo, t := TrimStart(s, chars), Trim(s, chars);
      lo + |t| <= |s| && t == s[lo..lo + |t|]
  {
    var l := LTrim(s, chars);
    var r := RTrim(l, chars);
    SliceOfSuffix(s, l, r, |s| - |l|);
  }

  lemma SliceOfSuffix(s: string, l: string, r: string, lo: nat)
    requires lo <= |s| && l == s[lo..] && |r| <= |l| && r == l[..|r|]
    ensures lo + |r| <= |s| && r == s[lo..lo + |r|]
  {
  }

  lemma TrimRemoved(s: string, chars: set<char>)
    ensures var lo, t := TrimStart(s, chars), Trim(s, chars);
      && (forall i :: 0 <= i < lo ==> s[i] in chars)
      && (forall i :: lo + |t| <= i < |s| ==> s[i] in chars)
  {
    var l := LTrim(s, chars);
    var r := RTrim(l, chars);
    var _ := TrimmedBothEnds(s, l, r, chars);
  }

  lemma TrimEnds(s: string, chars: set<char>)
    ensures var t := Trim(s, chars);
      && (t == [] || t[0] !in chars)
      && (t == [] || t[|t| - 1] !in chars)
  {
    var l := LTrim(s, chars);
    var r := RTrim(l, chars);
    if r != [] {
      assert r[0] == l[0];
    }
  }

  /** The shape `trim` keeps, from the shapes `ltrim` and `rtrim` keep. */
  lemma TrimmedBothEnds(s: string, l: string, r: string, chars: set<char>) returns (lo: nat)
    requires |l| <= |s| && l == s[|s| - |l|..]
    requires forall i :: 0 <= i < |s| - |l| ==> s[i] in chars
    requires l == [] || l[0] !in chars
    requires |r| <= |l| && r == l[..|r|]
    requires forall i :: |r| <= i < |l| ==> l[i] in chars
    requires r == [] || r[|r| - 1] !in chars
    ensures lo + |r| <= |s|
    ensures r == s[lo..lo + |r|]
    ensures forall i :: 0 <= i < lo ==> s[i] in chars
    ensures forall i :: lo + |r| <= i < |s| ==> s[i] in chars
    ensures r == [] || r[0] !in chars
  {
    lo := |s| - |l|;
    TrimmedTail(s, lo, l, |r|, chars);
    if r != [] {
      assert r[0] == l[0];
    }
  }

  /** Positions of a suffix `l` of `s` starting at `lo`, read in `s`. */
  lemma TrimmedTail(s: string, lo: nat, l: string, n: nat, chars: set<char>)
    requires lo <= |s| && l == s[lo..] && n <= |l|
    requires forall i :: n <= i < |l| ==> l[i] in chars
    ensures l[..n] == s[lo..lo + n]
    ensures forall i :: lo + n <= i < |s| ==> s[i] in chars
  {
    forall i | lo + n <= i < |s| ensures s[i] in chars {
      assert s[i] == l[i - lo];
    }
  }
}
