/** The adapter's result and url helpers: the image resize option string,
    the file record returned after an upload callback, and the split of a
    TOS object url into protocol, key, bucket, region and endpoint. */
module TosFile {
  import opened Php

  // ---------------------------------------------------------------------------
  // Image resize option

  const ResizeMode := "resize"
  const FillMode := "m_fill"
  /** `resize,m_fill,`: the fixed start of the option string. */
  const ResizePrefix := ResizeMode + "," + FillMode + ","

  /** `!empty($v) && $v = $prefix . $v;`: a non-empty value gets the prefix;
      "" and "0" are left as they are. */
  function PrefixNonEmpty(prefix: string, v: string): string
  {
    if TruthyStr(v) then prefix + v else v
  }

  /** `array_filter`: the truthy strings, in order. */
  function FilterTruthy(xs: seq<string>): (ys: seq<string>)
    ensures |ys| <= |xs|
    ensures forall i :: 0 <= i < |ys| ==> TruthyStr(ys[i])
    ensures forall i :: 0 <= i < |xs| && TruthyStr(xs[i]) ==> xs[i] in ys
    ensures |xs| == 1 ==> ys == if TruthyStr(xs[0]) then xs else []
  {
    if xs == [] then []
    else if TruthyStr(xs[0]) then [xs[0]] + FilterTruthy(xs[1..])
    else FilterTruthy(xs[1..])
  }

  /** Filtering works element by element: filtering a concatenation is
      filtering each part, so the kept elements stay in their order. */
  lemma {:induction false} FilterTruthyAppend(a: seq<string>, b: seq<string>)
    ensures FilterTruthy(a + b) == FilterTruthy(a) + FilterTruthy(b)
  {
    if a != [] {
      assert (a + b)[1..] == a[1..] + b;
      FilterTruthyAppend(a[1..], b);
    }
    else {
      assert a + b == b;
    }
  }

  /** `implode($sep, $parts)`, which gives "" for an empty array. */
  function Join(sep: char, parts: seq<string>): string
  {
    if parts == [] then "" else Implode(sep, parts)
  }

  /** The option string `resizeImg` hands to the url combiner. */
  function ResizeOption(width: string, height: string): (option: string)
    ensures ResizePrefix <= option
    ensures option == ResizePrefix <==> !TruthyStr(width) && !TruthyStr(height)
  {
    var w := PrefixNonEmpty("w_", width);
    var h := PrefixNonEmpty("h_", height);
    FilteredDimensions(width, height);
    ResizePrefix + Join(',', FilterTruthy([w, h]))
  }

  /** The dimensions the option string names: `w_<width>` and then
      `h_<height>`, each only when its value is neither "" nor "0". */
  function Dimensions(width: string, height: string): seq<string>
  {
    (if TruthyStr(width) then ["w_" + width] else [])
    + (if TruthyStr(height) then ["h_" + height] else [])
  }

  /** Prefixing and then filtering keeps exactly the named dimensions. */
  lemma FilteredDimensions(width: string, height: string)
    ensures FilterTruthy([PrefixNonEmpty("w_", width), PrefixNonEmpty("h_", height)]) == Dimensions(width, height)
  {
    var w := PrefixNonEmpty("w_", width);
    var h := PrefixNonEmpty("h_", height);
    assert [w, h][1..] == [h] && [h][1..] == [];
    assert TruthyStr(w) <==> TruthyStr(width);
    assert TruthyStr(h) <==> TruthyStr(height);
  }

  /** The option string is the fixed prefix followed by the dimensions,
      comma-separated. */
  lemma ResizeOptionCases(width: string, height: string)
    ensures ResizeOption(width, height) == ResizePrefix + Join(',', Dimensions(width, height))
    ensures TruthyStr(width) && TruthyStr(height) ==>
      ResizeOption(width, height) == ResizePrefix + "w_" + width + "," + "h_" + height
    ensures TruthyStr(width) && !TruthyStr(height) ==>
      ResizeOption(width, height) == ResizePrefix + "w_" + width
    ensures !TruthyStr(width) && TruthyStr(height) ==>
      ResizeOption(width, height) == ResizePrefix + "h_" + height
    ensures !TruthyStr(width) && !TruthyStr(height) ==>
      ResizeOption(width, height) == ResizePrefix
  {
    FilteredDimensions(width, height);
    var dims := Dimensions(width, height);
    if TruthyStr(width) && TruthyStr(height) {
      assert dims[1..] == ["h_" + height];
      assert Implode(',', dims) == "w_" + width + [','] + "h_" + height;
    }
  }

  /** `implode` of a non-empty list is the first piece followed by the rest,
      each after a separator. */
  lemma {:induction false} ImplodeSepPrefixed(sep: char, parts: seq<string>)
    requires |parts| >= 1
    ensures Implode(sep, parts) == parts[0] + SepPrefixed(sep, parts[1..])
  {
    if |parts| > 1 {
      ImplodeSepPrefixed(sep, parts[1..]);
      assert parts[1..][1..] == parts[2..];
    }
  }

  /** The pieces the option string is joined from. */
  function ResizePieces(width: string, height: string): seq<string>
  {
    var dims := Dimensions(width, height);
    [ResizeMode, FillMode] + (if dims == [] then [""] else dims)
  }

  lemma ResizeOptionJoined(width: string, height: string)
    ensures Implode(',', ResizePieces(width, height)) == ResizeOption(width, height)
  {
    FilteredDimensions(width, height);
    var dims := Dimensions(width, height);
    var tail := if dims == [] then [""] else dims;
    ImplodeAfterTwo(',', ResizeMode, FillMode, tail);
    JoinAsTail(',', dims);
    assert ResizePrefix + Join(',', dims) == ResizeMode + [','] + FillMode + ([','] + Join(',', dims));
  }

  /** Two leading pieces, then the rest after separators. */
  lemma ImplodeAfterTwo(sep: char, a: string, b: string, rest: seq<string>)
    ensures Implode(sep, [a, b] + rest) == a + [sep] + b + SepPrefixed(sep, rest)
  {
    var parts := [a, b] + rest;
    ImplodeSepPrefixed(sep, parts);
    assert parts[1..] == [b] + rest;
    assert parts[1..][1..] == rest;
  }

  /** A list joined with a separator, or a single empty piece when the list
      is empty, reads the same after a leading separator. */
  lemma JoinAsTail(sep: char, dims: seq<string>)
    ensures SepPrefixed(sep, if dims == [] then [""] else dims) == [sep] + Join(sep, dims)
  {
    if dims == [] {
      assert [""][1..] == [];
    } else {
      ImplodeSepPrefixed(sep, dims);
    }
  }

  /** Read back as a comma-separated list, the option string names the
      resize mode and then exactly the given dimensions, in order; with no
      dimension the trailing comma leaves one empty piece. */
  lemma ResizeOptionFields(width: string, height: string)
    requires ',' !in width && ',' !in height
    ensures Explode(',', ResizeOption(width, height)) ==
      [ResizeMode, FillMode] + (if Dimensions(width, height) == [] then [""] else Dimensions(width, height))
  {
    ResizeOptionJoined(width, height);
    var parts := ResizePieces(width, height);
    assert ',' !in ResizeMode && ',' !in FillMode;
    forall i | 0 <= i < |parts| ensures ',' !in parts[i] {
    }
    ExplodeImplode(',', parts);
  }

  /** `resizeImg`: the resize option combined into the url by the plugin's
      url combiner. */
  function ResizeImg(combine: (string, string) -> string, url: string, width: string, height: string): (r: string)
    ensures r == combine(url, ResizePrefix + Join(',', Dimensions(width, height)))
  {
    ResizeOptionCases(width, height);
    combine(url, ResizeOption(width, height))
  }

  // ---------------------------------------------------------------------------
  // File record

  const SecurityKey := "security"

  /** The record `extraFile` returns, in the order its fields are assigned. */
  function FileData(vendorType: string, showHost: Value, security: Value, body: map<string, Value>): (d: Assoc<Value>)
    ensures DistinctKeys(d)
  {
    var title := Lookup(body, "title");
    var filename := ToStr(Lookup(body, "filename"));
    [("title", if Truthy(title) then title else Str(LastPiece('/', filename))),
     ("url", Str(ToStr(showHost) + "/" + filename)),
     ("size", Lookup(body, "size")),
     ("security", Int(if Truthy(security) then 1 else 0)),
     ("file", Str("")),
     ("vendor_type", Str(vendorType))]
  }

  /** The record has six fields. */
  lemma FileDataLength(vendorType: string, showHost: Value, security: Value, body: map<string, Value>)
    ensures |FileData(vendorType, showHost, security, body)| == 6
  {
  }

  /** The record's title is the given title when that is truthy; otherwise
      it is the last '/'-separated piece of the object name: a suffix of the
      name, holding no '/', and preceded by a '/' unless it is the whole name. */
  lemma FileDataTitle(vendorType: string, showHost: Value, security: Value, body: map<string, Value>)
    ensures var d := FileData(vendorType, showHost, security, body);
      var filename := ToStr(Lookup(body, "filename"));
      && (Truthy(Lookup(body, "title")) ==> Get(d, "title") == Some(Lookup(body, "title")))
      && (!Truthy(Lookup(body, "title")) ==>
            Get(d, "title").Some? && Get(d, "title").value.Str? &&
            var t := Get(d, "title").value.s;
            '/' !in t && |t| <= |filename| && filename[|filename| - |t|..] == t &&
            (|t| < |filename| ==> filename[|filename| - |t| - 1] == '/'))
  {
    var d := FileData(vendorType, showHost, security, body);
    assert Get(d, "title") == Some(d[0].1);
    LastPieceIsSuffix('/', ToStr(Lookup(body, "filename")));
  }

  /** The url joins the display host and the object name with '/'; the size
      is passed through; `security` is 1 exactly when the configured flag is
      truthy and 0 otherwise; `file` is empty; the vendor type is recorded. */
  lemma FileDataFields(vendorType: string, showHost: Value, security: Value, body: map<string, Value>)
    ensures var d := FileData(vendorType, showHost, security, body);
      && Get(d, "url") == Some(Str(ToStr(showHost) + "/" + ToStr(Lookup(body, "filename"))))
      && Get(d, "size") == Some(Lookup(body, "size"))
      && (Get(d, "security") == Some(Int(1)) <==> Truthy(security))
      && (Get(d, "security") == Some(Int(0)) <==> !Truthy(security))
      && Get(d, "file") == Some(Str(""))
      && Get(d, "vendor_type") == Some(Str(vendorType))
  {
    var d := FileData(vendorType, showHost, security, body);
    GetAt(d, 1);
    GetAt(d, 2);
    GetAt(d, 3);
    GetAt(d, 4);
    GetAt(d, 5);
  }

  // ---------------------------------------------------------------------------
  // TOS object url

  /** The parts of an object url that `parse_url` yields and the helper reads. */
  datatype UrlParts = UrlParts(scheme: string, host: string, path: string)

  /** The helper's result. */
  datatype TosUrl = TosUrl(protocol: string, key: string, region: string, bucket: string, endpoint: string)

  /** The characters `trim($x, 'tos-')` removes: a set, not a prefix. */
  const TosTrimChars: set<char> := {'t', 'o', 's', '-'}

  /** `$host[$i]`: a missing piece reads as null, which `trim` and `.` treat as "". */
  function Piece(pieces: seq<string>, i: nat): string
  {
    if i < |pieces| then pieces[i] else ""
  }

  /** The region as the helper computes it from the second host part. */
  function RegionAsWritten(part: string): string
  {
    Trim(part, TosTrimChars)
  }

  /** `_handleTosUrl` as written. */
  function HandleTosUrl(u: UrlParts): (r: TosUrl)
    ensures r.protocol == u.scheme && r.key == u.path
    ensures '.' !in r.bucket && r.bucket <= u.host
    ensures r.bucket != u.host ==> u.host[|r.bucket|] == '.'
  {
    var host := Explode('.', u.host);
    ExplodeFirstPiece('.', u.host);
    TosUrl(u.scheme, u.path, RegionAsWritten(Piece(host, 1)), Piece(host, 0),
           Piece(host, 1) + "." + Piece(host, 2) + "." + Piece(host, 3))
  }

  /** Splitting `bucket.part.d2.d3` on '.' gives back its four labels. */
  lemma HostPieces(bucket: string, part: string, d2: string, d3: string)
    requires '.' !in bucket && '.' !in part && '.' !in d2 && '.' !in d3
    ensures Explode('.', bucket + "." + part + "." + d2 + "." + d3) == [bucket, part, d2, d3]
  {
    var parts := [bucket, part, d2, d3];
    assert Implode('.', parts[3..]) == d3;
    assert Implode('.', parts[2..]) == d2 + "." + d3;
    assert Implode('.', parts[1..]) == part + "." + d2 + "." + d3;
    assert Implode('.', parts) == bucket + "." + part + "." + d2 + "." + d3;
    forall i | 0 <= i < |parts| ensures '.' !in parts[i] {
    }
    ExplodeImplode('.', parts);
  }

  /** For a virtual-hosted object url `bucket.part.d2.d3`, the bucket is the
      first host label, the endpoint the other three joined with '.', the
      protocol and key come from the url unchanged, and the region is
      computed from the second label. */
  lemma HandleTosUrlSplit(scheme: string, path: string, bucket: string, part: string, d2: string, d3: string)
    requires '.' !in bucket && '.' !in part && '.' !in d2 && '.' !in d3
    ensures var r := HandleTosUrl(UrlParts(scheme, bucket + "." + part + "." + d2 + "." + d3, path));
      && r.protocol == scheme && r.key == path && r.bucket == bucket
      && r.endpoint == part + "." + d2 + "." + d3
      && r.region == RegionAsWritten(part)
  {
    HostPieces(bucket, part, d2, d3);
  }

  /** As written, trimming the character set also eats region letters: the
      part `tos-eu-west` yields the region `eu-we`. */
  lemma RegionAsWrittenTrimsTooMuch()
    ensures RegionAsWritten("tos-eu-west") == "eu-we"
    ensures RegionAsWritten("tos-eu-west") != RegionOfLabel("tos-eu-west")
  {
    ExampleLeftTrim();
    ExampleRightTrim();
    assert RegionLabelPrefix <= "tos-eu-west";
    assert RegionOfLabel("tos-eu-west") == "eu-west";
  }

  /** The leading `tos-` of the example part is all trimmed characters. */
  lemma ExampleLeftTrim()
    ensures LTrim("tos-eu-west", TosTrimChars) == "eu-west"
  {
    var s := "tos-eu-west";
    assert s[0] == 't' && s[1] == 'o' && s[2] == 's' && s[3] == '-' && s[4] == 'e';
    LTrimPrefix(s, 4);
    assert s[4..] == "eu-west";
  }

  /** The trailing `st` of the example region is trimmed as well. */
  lemma ExampleRightTrim()
    ensures RTrim("eu-west", TosTrimChars) == "eu-we"
  {
    var l := "eu-west";
    assert l[4] == 'e' && l[5] == 's' && l[6] == 't';
    RTrimSuffix(l, 5);
    assert l[..5] == "eu-we";
  }

  const RegionLabelPrefix := "tos-"

  /** The region the helper evidently means: the second host part without
      its `tos-` prefix. */
  function RegionOfLabel(part: string): (region: string)
    ensures RegionLabelPrefix <= part ==> part == RegionLabelPrefix + region
    ensures !(RegionLabelPrefix <= part) ==> region == part
  {
    if RegionLabelPrefix <= part then part[|RegionLabelPrefix|..] else part
  }

  /** The prefix-stripping region gives back every region name that the
      endpoint part was built from. */
  lemma RegionOfLabelRoundTrip(region: string)
    ensures RegionOfLabel(RegionLabelPrefix + region) == region
  {
    assert (RegionLabelPrefix + region)[|RegionLabelPrefix|..] == region;
  }

  /** The written trim agrees with the prefix strip exactly on region names
      that neither start nor end with one of the characters `t`, `o`, `s`, `-`. */
  lemma RegionAsWrittenAgrees(region: string)
    requires region != []
    ensures RegionAsWritten(RegionLabelPrefix + region) == RegionOfLabel(RegionLabelPrefix + region)
      <==> region[0] !in TosTrimChars && region[|region| - 1] !in TosTrimChars
  {
    RegionOfLabelRoundTrip(region);
    if region[0] !in TosTrimChars && region[|region| - 1] !in TosTrimChars {
      RegionTrimKeeps(region);
    } else {
      TrimEnds(RegionLabelPrefix + region, TosTrimChars);
    }
  }

  /** A region name whose ends are outside the trimmed set survives the trim. */
  lemma RegionTrimKeeps(region: string)
    requires region != [] && region[0] !in TosTrimChars && region[|region| - 1] !in TosTrimChars
    ensures RegionAsWritten(RegionLabelPrefix + region) == region
  {
    var s := RegionLabelPrefix + region;
    PrefixAllTrimmed();
    assert s[4] == region[0];
    forall i | 0 <= i < 4 ensures s[i] in TosTrimChars {
      assert s[i] == RegionLabelPrefix[i];
    }
    LTrimPrefix(s, 4);
    assert s[4..] == region;
  }

  /** Every character of `tos-` is in the trimmed set. */
  lemma PrefixAllTrimmed()
    ensures |RegionLabelPrefix| == 4
    ensures forall i :: 0 <= i < 4 ==> RegionLabelPrefix[i] in TosTrimChars
  {
  }

  /** `ltrim` skips a leading run of trimmed characters and stops at the
      first character outside the set. */
  lemma {:induction false} LTrimPrefix(s: string, n: nat)
    requires n < |s|
    requires forall i :: 0 <= i < n ==> s[i] in TosTrimChars
    requires s[n] !in TosTrimChars
    ensures LTrim(s, TosTrimChars) == s[n..]
  {
    if n > 0 {
      assert s[1..][n - 1] == s[n];
      LTrimPrefix(s[1..], n - 1);
      assert s[1..][n - 1..] == s[n..];
    }
  }

  /** `rtrim` drops a trailing run of trimmed characters and stops at the
      last character outside the set. */
  lemma {:induction false} RTrimSuffix(s: string, n: nat)
    requires 0 < n <= |s|
    requires forall i :: n <= i < |s| ==> s[i] in TosTrimChars
    requires s[n - 1] !in TosTrimChars
    ensures RTrim(s, TosTrimChars) == s[..n]
  {
    if n < |s| {
      var t := s[..|s| - 1];
      assert t[n - 1] == s[n - 1];
      RTrimSuffix(t, n);
      assert t[..n] == s[..n];
    }
  }

  /** `_handleTosUrl` with the region taken by stripping the `tos-` prefix. */
  function HandleTosUrlCorrected(u: UrlParts): TosUrl
  {
    var host := Explode('.', u.host);
    TosUrl(u.scheme, u.path, RegionOfLabel(Piece(host, 1)), Piece(host, 0),
           Piece(host, 1) + "." + Piece(host, 2) + "." + Piece(host, 3))
  }

  /** With the correction, the region is recovered from a virtual-hosted
      url `bucket.tos-<region>.d2.d3` for every region name, and every other
      field is as the written helper computes it. */
  lemma HandleTosUrlCorrectedRegion(scheme: string, path: string, bucket: string, region: string, d2: string, d3: string)
    requires '.' !in bucket && '.' !in region && '.' !in d2 && '.' !in d3
    ensures var u := UrlParts(scheme, bucket + "." + RegionLabelPrefix + region + "." + d2 + "." + d3, path);
      var r := HandleTosUrlCorrected(u);
      && r.region == region
      && r == HandleTosUrl(u).(region := region)
  {
    var part := RegionLabelPrefix + region;
    assert '.' !in part;
    assert bucket + "." + RegionLabelPrefix + region + "." + d2 + "." + d3 == bucket + "." + part + "." + d2 + "." + d3;
    HostPieces(bucket, part, d2, d3);
    RegionOfLabelRoundTrip(region);
  }
}
