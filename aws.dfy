/**
 * The Amazon S3 client of aws.py: the StringToSign and Authorization value
 * of the S3 REST authentication scheme (AWS signature version 2), the
 * header dict `put_object` sends, and what `put_cdn_content` prepares for a
 * content-addressed, publicly cached object.
 *
 * A Python dict is modelled as its keys in iteration order and a map from
 * key to value. SHA-1, HMAC-SHA1, base64 and `mimetypes.guess_type` are opaque
 * function values; the clock enters as already formatted date strings. The
 * HTTP fetch itself is not modelled: `put_object` yields the request.
 */
module Aws {
  import opened Wrappers
  import opened Text

  type Header = (string, string)

  /** A dict of strings: its keys in iteration order, and the value under each key. */
  datatype Dict = Dict(keys: seq<string>, values: map<string, string>)

  /** Every key occurs once in the order, and the stored keys are exactly those in the order. */
  ghost predicate Valid(d: Dict) {
    (forall i, j :: 0 <= i < j < |d.keys| ==> d.keys[i] != d.keys[j])
    && (forall k :: k in d.values <==> k in d.keys)
  }

  const EmptyDict: Dict := Dict([], map[])

  /** The library primitives the client calls. */
  datatype Primitives = Primitives(
    sha1: string -> seq<Byte>,
    hmacSha1: (string, string) -> seq<Byte>,
    base64: seq<Byte> -> string,
    guessType: string -> Option<string>)

  /** `S3Client(bucket, access_key_id, secret_access_key)`; `None` is an unset key id. */
  datatype S3Client = S3Client(bucket: string, accessKeyId: Option<string>, secret: string)

  /** The request `put_object` hands to the asynchronous HTTP client. */
  datatype HttpRequest = HttpRequest(verb: string, url: string, headers: Dict, body: string)

  /** What `put_cdn_content` puts: the content hash used as the key, and the PUT request. */
  datatype CdnUpload = CdnUpload(key: string, request: HttpRequest)

  /** The exception `put_cdn_content` raises for an unsafe file name. */
  datatype CdnError = UnsafeFileName(fileName: string)


  function Host(c: S3Client): string {
    "http://" + c.bucket + ".s3.amazonaws.com"
  }

  // -----------------------------------------------------------------------
  // Dicts

  /** `d.get(k)`. */
  function Get(d: Dict, k: string): Option<string> {
    if k in d.values then Some(d.values[k]) else None
  }

  function GetOr(d: Dict, k: string, default: string): string {
    if k in d.values then d.values[k] else default
  }

  /** `d[k] = v`: an existing key keeps its place in the order, a new key comes last. */
  function Set(d: Dict, k: string, v: string): (r: Dict)
    requires Valid(d)
    ensures Valid(r)
    ensures Get(r, k) == Some(v) && forall k' :: k' != k ==> Get(r, k') == Get(d, k')
    ensures r.keys == if k in d.keys then d.keys else d.keys + [k]
  {
    Dict(if k in d.values then d.keys else d.keys + [k], d.values[k := v])
  }

  /** `d.items()`, in iteration order. */
  function Items(d: Dict): (r: seq<Header>)
    requires Valid(d)
    ensures |r| == |d.keys| && forall i :: 0 <= i < |r| ==> r[i] == (d.keys[i], d.values[d.keys[i]])
  {
    seq(|d.keys|, i requires 0 <= i < |d.keys| => (d.keys[i], d.values[d.keys[i]]))
  }

  /** `d.update(items)` for a sequence of pairs: each pair is stored in turn. */
  function SetAll(d: Dict, items: seq<Header>): (r: Dict)
    requires Valid(d)
    ensures Valid(r)
  {
    if items == [] then d
    else
      var last := items[|items| - 1];
      Set(SetAll(d, items[..|items| - 1]), last.0, last.1)
  }

  /** The value of the last pair with key `k`. */
  function LastOf(items: seq<Header>, k: string): Option<string> {
    if items == [] then None
    else if items[|items| - 1].0 == k then Some(items[|items| - 1].1)
    else LastOf(items[..|items| - 1], k)
  }

  /** After storing pairs, a key holds the value of its last pair, or its old value when it has none. */
  lemma {:induction false} SetAllGet(d: Dict, items: seq<Header>, k: string)
    requires Valid(d)
    ensures Get(SetAll(d, items), k) == if LastOf(items, k).Some? then LastOf(items, k) else Get(d, k)
  {
    if items != [] {
      SetAllGet(d, items[..|items| - 1], k);
    }
  }

  /** In a dict's own items, the last (and only) pair for `k` carries the stored value. */
  lemma {:induction false} LastOfItems(d: Dict, n: nat, k: string)
    requires Valid(d) && n <= |d.keys|
    ensures LastOf(Items(d)[..n], k) == if k in d.keys[..n] then Get(d, k) else None
  {
    if n > 0 {
      var items := Items(d)[..n];
      assert items[..n - 1] == Items(d)[..n - 1];
      assert d.keys[..n] == d.keys[..n - 1] + [d.keys[n - 1]];
      LastOfItems(d, n - 1, k);
    }
  }

  /** `d.update(custom)`. */
  function Update(d: Dict, custom: Dict): (r: Dict)
    requires Valid(d) && Valid(custom)
    ensures Valid(r)
  {
    SetAll(d, Items(custom))
  }

  /** After `d.update(custom)` a key has its custom value if it has one, and its old value otherwise. */
  lemma UpdateGet(d: Dict, custom: Dict, k: string)
    requires Valid(d) && Valid(custom)
    ensures Get(Update(d, custom), k) == if k in custom.values then Get(custom, k) else Get(d, k)
  {
    SetAllGet(d, Items(custom), k);
    LastOfItems(custom, |custom.keys|, k);
    assert Items(custom)[..|custom.keys|] == Items(custom);
    assert custom.keys[..|custom.keys|] == custom.keys;
  }

  // -----------------------------------------------------------------------
  // Signing (`_auth_header`)

  const SpecialHeaders: seq<string> := ["content-md5", "content-type", "date"]

  predicate IsAmzName(k: string) {
    StartsWith(k, "x-amz-")
  }

  /** A lower-cased header name that takes part in the signature. */
  predicate IsSignedName(k: string) {
    IsAmzName(k) || k in SpecialHeaders
  }

  /** The pairs `(k.lower(), v)` of the headers whose lower-cased name is signed, in item order. */
  function SignedItems(items: seq<Header>): seq<Header> {
    if items == [] then []
    else
      var prev := SignedItems(items[..|items| - 1]);
      var k := Lower(items[|items| - 1].0);
      if IsSignedName(k) then prev + [(k, items[|items| - 1].1)] else prev
  }

  /** `dict((k, "") for k in special_headers)`. */
  const InitialSigned: Dict := Dict(SpecialHeaders, map["content-md5" := "", "content-type" := "", "date" := ""])

  lemma InitialSignedValid()
    ensures Valid(InitialSigned)
  {
  }

  /** `signed_headers`: the special headers with value "", updated with the signed pairs. */
  function SignedHeaders(h: Dict): (r: Dict)
    requires Valid(h)
    ensures Valid(r)
  {
    InitialSignedValid();
    SetAll(InitialSigned, SignedItems(Items(h)))
  }

  /** One line of the StringToSign: `name:value` for x-amz- headers, the bare value otherwise. */
  function Line(k: string, signed: Dict): string {
    if IsAmzName(k) then k + ":" + GetOr(signed, k, "") + "\n" else GetOr(signed, k, "") + "\n"
  }

  /** The lines of the StringToSign for the given names, in order. */
  function LinesOf(keys: seq<string>, signed: Dict): (r: seq<string>)
    ensures |r| == |keys| && forall i :: 0 <= i < |keys| ==> r[i] == Line(keys[i], signed)
  {
    if keys == [] then [] else LinesOf(keys[..|keys| - 1], signed) + [Line(keys[|keys| - 1], signed)]
  }

  function CanonicalLines(keys: seq<string>, signed: Dict): string {
    Concat(LinesOf(keys, signed))
  }

  /** The StringToSign `_auth_header` builds for a request. */
  function StringToSign(verb: string, h: Dict, bucket: string, key: string): string
    requires Valid(h) && IsByteString(key)
  {
    var signed := SignedHeaders(h);
    verb + "\n" + CanonicalLines(Sort(signed.keys), signed) + "/" + bucket + "/" + QuotePlus(key)
  }

  /** `"AWS " + access_key_id + ":" + base64(HMAC-SHA1(secret, StringToSign)).strip()`. */
  function AuthValue(prims: Primitives, c: S3Client, verb: string, key: string, h: Dict): string
    requires c.accessKeyId.Some? && Valid(h) && IsByteString(key)
  {
    "AWS " + c.accessKeyId.value + ":" + Strip(prims.base64(prims.hmacSha1(c.secret, StringToSign(verb, h, c.bucket, key))), false)
  }

  /** The line of a name present in the signed headers, as the loop of `_auth_header` writes it. */
  lemma LineOfPresent(k: string, signed: Dict)
    requires k in signed.values
    ensures Line(k, signed) == if StartsWith(k, "x-amz-") then k + ":" + signed.values[k] + "\n" else signed.values[k] + "\n"
  {
  }

  /** The loop of `_auth_header`: one line appended to the buffer per name, in the given order. */
  method AppendLines(buffer0: string, keys: seq<string>, signed: Dict) returns (buffer: string)
    requires forall k :: k in keys ==> k in signed.values
    ensures buffer == buffer0 + CanonicalLines(keys, signed)
  {
    ghost var lines := LinesOf(keys, signed);
    buffer := buffer0;
    var i := 0;
    while i < |keys|
      invariant 0 <= i <= |keys|
      invariant buffer == buffer0 + Concat(lines[..i])
    {
      var k := keys[i];
      LineOfPresent(k, signed);
      ConcatStep(buffer0, lines, i);
      if StartsWith(k, "x-amz-") {
        buffer := buffer + (k + ":" + signed.values[k] + "\n");
      } else {
        buffer := buffer + (signed.values[k] + "\n");
      }
      i := i + 1;
    }
    TakeAll(lines);
  }

  /** `_auth_header`'s buffer: the method, one line per sorted signed name, then the resource. */
  method BuildStringToSign(verb: string, signed: Dict, bucket: string, key: string) returns (buffer: string)
    requires Valid(signed) && IsByteString(key)
    ensures buffer == verb + "\n" + CanonicalLines(Sort(signed.keys), signed) + "/" + bucket + "/" + QuotePlus(key)
  {
    var sortedKeys := Sort(signed.keys);
    SortMembers(signed.keys);
    buffer := AppendLines(verb + "\n", sortedKeys, signed);
    buffer := buffer + "/" + bucket + "/" + QuotePlus(key);
  }

  /** `_auth_header`: signs the StringToSign with the secret key. */
  method AuthHeader(prims: Primitives, c: S3Client, verb: string, key: string, h: Dict) returns (auth: string)
    requires c.accessKeyId.Some? && Valid(h) && IsByteString(key)
    ensures auth == AuthValue(prims, c, verb, key, h)
  {
    var signed := SignedHeaders(h);
    var buffer := BuildStringToSign(verb, signed, c.bucket, key);
    var signature := prims.hmacSha1(c.secret, buffer);
    auth := "AWS " + c.accessKeyId.value + ":" + Strip(prims.base64(signature), false);
  }

  // -----------------------------------------------------------------------
  // What is signed

  /** The value of the last header whose lower-cased name is `k`. */
  function LastValue(items: seq<Header>, k: string): Option<string> {
    if items == [] then None
    else if Lower(items[|items| - 1].0) == k then Some(items[|items| - 1].1)
    else LastValue(items[..|items| - 1], k)
  }

  /** What the StringToSign carries for the lower-cased name `k`: the last value, or "" when absent. */
  function Value(h: Dict, k: string): string
    requires Valid(h)
  {
    match LastValue(Items(h), k)
    case Some(v) => v
    case None => ""
  }

  /** The distinct lower-cased x-amz- names among the items, in order of first appearance. */
  function AmzNames(items: seq<Header>): seq<string> {
    if items == [] then []
    else
      var prev := AmzNames(items[..|items| - 1]);
      var k := Lower(items[|items| - 1].0);
      if IsAmzName(k) && k !in prev then prev + [k] else prev
  }

  /** One `name:value` line per x-amz- name, in the order given. */
  function AmzLines(names: seq<string>, h: Dict): string
    requires Valid(h)
  {
    if names == [] then ""
    else
      var k := names[|names| - 1];
      AmzLines(names[..|names| - 1], h) + (k + ":" + Value(h, k) + "\n")
  }

  lemma {:induction false} LastOfSigned(items: seq<Header>, k: string)
    ensures LastOf(SignedItems(items), k) == if IsSignedName(k) then LastValue(items, k) else None
  {
    if items != [] {
      LastOfSigned(items[..|items| - 1], k);
    }
  }

  /**
   * The signed dict holds, under each signed lower-cased name, the value of
   * the last header with that name in any case, and "" for an absent
   * special header; it holds nothing else.
   */
  lemma SignedLookup(h: Dict, k: string)
    requires Valid(h)
    ensures Get(SignedHeaders(h), k) ==
      if !IsSignedName(k) then None
      else if LastValue(Items(h), k).Some? then LastValue(Items(h), k)
      else if k in SpecialHeaders then Some("")
      else None
  {
    InitialSignedValid();
    SetAllGet(InitialSigned, SignedItems(Items(h)), k);
    LastOfSigned(Items(h), k);
  }

  /** Storing a signed name adds it after the names already there, unless it is one of them. */
  lemma SignedKeysStep(prev: Dict, names: seq<string>, k: string, v: string)
    requires Valid(prev) && prev.keys == SpecialHeaders + names && IsSignedName(k)
    ensures Set(prev, k, v).keys == SpecialHeaders + (if IsAmzName(k) && k !in names then names + [k] else names)
  {
    SpecialNotAmz();
    if IsAmzName(k) && k !in names {
      assert k !in SpecialHeaders;
      AppendOneAssoc(SpecialHeaders, names, k);
    }
  }

  lemma {:induction false} SignedKeysOf(items: seq<Header>)
    ensures Valid(InitialSigned)
    ensures SetAll(InitialSigned, SignedItems(items)).keys == SpecialHeaders + AmzNames(items)
    ensures forall k :: k in AmzNames(items) ==> IsAmzName(k)
  {
    InitialSignedValid();
    if items != [] {
      var init := items[..|items| - 1];
      var k, v := Lower(items[|items| - 1].0), items[|items| - 1].1;
      SignedKeysOf(init);
      if IsSignedName(k) {
        var s := SignedItems(init);
        LastAppended(s, (k, v));
        SignedKeysStep(SetAll(InitialSigned, s), AmzNames(init), k, v);
      }
    }
  }

  /** The signed names are the three special ones followed by the x-amz- names in order of appearance. */
  lemma SignedKeys(h: Dict)
    requires Valid(h)
    ensures SignedHeaders(h).keys == SpecialHeaders + AmzNames(Items(h))
    ensures forall k :: k in AmzNames(Items(h)) ==> IsAmzName(k)
  {
    SignedKeysOf(Items(h));
  }

  lemma CanonicalAppend(a: seq<string>, b: seq<string>, signed: Dict)
    ensures CanonicalLines(a + b, signed) == CanonicalLines(a, signed) + CanonicalLines(b, signed)
  {
    var ab, la, lb := a + b, LinesOf(a, signed), LinesOf(b, signed);
    var lab := LinesOf(ab, signed);
    forall i | 0 <= i < |lab|
      ensures lab[i] == (la + lb)[i]
    {
      if i < |a| {
        assert ab[i] == a[i];
      } else {
        assert ab[i] == b[i - |a|];
      }
    }
    assert lab == la + lb;
    ConcatAppend(la, lb);
  }

  /** The x-amz- part of the StringToSign lists each name with its last value. */
  lemma {:induction false} CanonicalAmz(names: seq<string>, h: Dict)
    requires Valid(h)
    requires forall k :: k in names ==> IsAmzName(k)
    ensures CanonicalLines(names, SignedHeaders(h)) == AmzLines(names, h)
  {
    if names != [] {
      var signed := SignedHeaders(h);
      var init, k := names[..|names| - 1], names[|names| - 1];
      LastAppended(LinesOf(init, signed), Line(k, signed));
      CanonicalAmz(init, h);
      SignedLine(h, k);
    }
  }

  lemma AmzAfterSpecial(k: string)
    requires IsAmzName(k)
    ensures forall i :: 0 <= i < |SpecialHeaders| ==> Less(SpecialHeaders[i], k)
  {
    assert k[0] == "x-amz-"[0];
  }

  /** Sorting puts the three special names first, before every x-amz- name. */
  lemma SortSpecialFirst(names: seq<string>)
    requires forall k :: k in names ==> IsAmzName(k)
    ensures Sort(SpecialHeaders + names) == SpecialHeaders + Sort(names)
  {
    forall i, k | 0 <= i < |SpecialHeaders| && k in names
      ensures Less(SpecialHeaders[i], k)
    {
      AmzAfterSpecial(k);
    }
    SpecialIncreasing();
    SortAfterPrefix(SpecialHeaders, names);
  }

  lemma Md5BeforeType()
    ensures Less("content-md5", "content-type")
  {
    var a, b := "content-md5", "content-type";
    assert a[..8] == b[..8];
    LessAt(a, b, 8);
  }

  lemma SpecialIncreasing()
    ensures forall i, j :: 0 <= i < j < |SpecialHeaders| ==> Less(SpecialHeaders[i], SpecialHeaders[j])
  {
    Md5BeforeType();
    LessAt("content-type", "date", 0);
    LessAt("content-md5", "date", 0);
    ThreeIncreasing("content-md5", "content-type", "date");
  }

  lemma ThreeIncreasing(a: string, b: string, c: string)
    requires Less(a, b) && Less(b, c) && Less(a, c)
    ensures forall i, j :: 0 <= i < j < 3 ==> Less([a, b, c][i], [a, b, c][j])
  {
  }

  lemma SpecialNotAmz()
    ensures forall k :: k in SpecialHeaders ==> !IsAmzName(k) && IsSignedName(k)
  {
    assert "content-md5"[0] == 'c' && "content-type"[0] == 'c' && "date"[0] == 'd';
  }

  /** Every signed name's line carries its last value, "" when absent. */
  lemma SignedLine(h: Dict, k: string)
    requires Valid(h) && IsSignedName(k)
    ensures Line(k, SignedHeaders(h)) == if IsAmzName(k) then k + ":" + Value(h, k) + "\n" else Value(h, k) + "\n"
  {
    SignedLookup(h, k);
  }

  /** The three fixed lines carry the special values, empty when absent. */
  lemma SpecialLines(h: Dict)
    requires Valid(h)
    ensures CanonicalLines(SpecialHeaders, SignedHeaders(h))
      == (Value(h, "content-md5") + "\n") + (Value(h, "content-type") + "\n") + (Value(h, "date") + "\n")
  {
    var signed := SignedHeaders(h);
    SpecialNotAmz();
    SignedLine(h, "content-md5");
    SignedLine(h, "content-type");
    SignedLine(h, "date");
    ConcatThree(LinesOf(SpecialHeaders, signed));
  }

  /**
   * The StringToSign is the method, the content-md5, content-type and date
   * values (empty when absent), one `name:value` line per x-amz- header in
   * sorted order of name, then `/bucket/quote_plus(key)`. The lines come in
   * non-decreasing order of name, the three fixed ones first.
   */
  lemma StringToSignShape(verb: string, h: Dict, bucket: string, key: string)
    requires Valid(h) && IsByteString(key)
    ensures StringToSign(verb, h, bucket, key) ==
      verb + "\n"
      + ((Value(h, "content-md5") + "\n") + (Value(h, "content-type") + "\n") + (Value(h, "date") + "\n")
         + AmzLines(Sort(AmzNames(Items(h))), h))
      + "/" + bucket + "/" + QuotePlus(key)
    ensures Sort(SignedHeaders(h).keys) == SpecialHeaders + Sort(AmzNames(Items(h)))
    ensures Sorted(Sort(SignedHeaders(h).keys))
  {
    var signed := SignedHeaders(h);
    var names := AmzNames(Items(h));
    SignedKeys(h);
    SortSpecialFirst(names);
    SortSorted(signed.keys);
    var s := Sort(names);
    assert multiset(s) == multiset(names);
    assert forall k :: k in s ==> k in multiset(names);
    CanonicalAppend(SpecialHeaders, s, signed);
    CanonicalAmz(s, h);
    SpecialLines(h);
  }

  // -----------------------------------------------------------------------
  // What does not matter to the signature

  /**
   * Item by item, two header lists carry the same lower-cased name and the
   * same value, or neither item's name is signed.
   */
  ghost predicate SameSigned(a: seq<Header>, b: seq<Header>) {
    |a| == |b|
    && forall i :: 0 <= i < |a| ==>
      (Lower(a[i].0) == Lower(b[i].0) && a[i].1 == b[i].1)
      || (!IsSignedName(Lower(a[i].0)) && !IsSignedName(Lower(b[i].0)))
  }

  lemma {:induction false} SignedItemsAgree(a: seq<Header>, b: seq<Header>)
    requires SameSigned(a, b)
    ensures SignedItems(a) == SignedItems(b)
  {
    if a != [] {
      var n := |a| - 1;
      assert SameSigned(a[..n], b[..n]) by {
        forall i | 0 <= i < n
          ensures (Lower(a[..n][i].0) == Lower(b[..n][i].0) && a[..n][i].1 == b[..n][i].1)
            || (!IsSignedName(Lower(a[..n][i].0)) && !IsSignedName(Lower(b[..n][i].0)))
        {
          assert a[..n][i] == a[i] && b[..n][i] == b[i];
        }
      }
      SignedItemsAgree(a[..n], b[..n]);
    }
  }

  /** The StringToSign depends only on what is signed. */
  lemma SameSignedSameString(verb: string, h1: Dict, h2: Dict, bucket: string, key: string)
    requires Valid(h1) && Valid(h2) && IsByteString(key)
    requires SameSigned(Items(h1), Items(h2))
    ensures StringToSign(verb, h1, bucket, key) == StringToSign(verb, h2, bucket, key)
  {
    SignedItemsAgree(Items(h1), Items(h2));
  }

  /** Header names are compared without regard to case: renaming headers case-wise leaves the StringToSign unchanged. */
  lemma NameCaseIrrelevant(verb: string, h1: Dict, h2: Dict, bucket: string, key: string)
    requires Valid(h1) && Valid(h2) && IsByteString(key)
    requires |h1.keys| == |h2.keys|
    requires forall i :: 0 <= i < |h1.keys| ==>
      Lower(h1.keys[i]) == Lower(h2.keys[i]) && h1.values[h1.keys[i]] == h2.values[h2.keys[i]]
    ensures StringToSign(verb, h1, bucket, key) == StringToSign(verb, h2, bucket, key)
  {
    SameSignedSameString(verb, h1, h2, bucket, key);
  }

  /** Setting a header whose lower-cased name is not signed leaves the StringToSign unchanged. */
  lemma UnsignedHeaderIrrelevant(verb: string, h: Dict, k: string, v: string, bucket: string, key: string)
    requires Valid(h) && IsByteString(key)
    requires !IsSignedName(Lower(k))
    ensures StringToSign(verb, Set(h, k, v), bucket, key) == StringToSign(verb, h, bucket, key)
  {
    var h' := Set(h, k, v);
    if k in h.keys {
      SameSignedSameString(verb, h', h, bucket, key);
    } else {
      AppendedUnsigned(h, k, v);
    }
  }

  /** A new header that is not signed adds nothing to the signed pairs. */
  lemma AppendedUnsigned(h: Dict, k: string, v: string)
    requires Valid(h) && k !in h.keys && !IsSignedName(Lower(k))
    ensures SignedItems(Items(Set(h, k, v))) == SignedItems(Items(h))
  {
    LastAppended(Items(h), (k, v));
    assert Items(Set(h, k, v)) == Items(h) + [(k, v)];
  }

  // -----------------------------------------------------------------------
  // `put_object`

  /** `_default_headers(custom)`: a Date header, then the custom headers stored over it. */
  function DefaultHeaders(custom: Dict, date: string): (r: Dict)
    requires Valid(custom)
    ensures Valid(r)
  {
    Update(Set(EmptyDict, "Date", date), custom)
  }

  /** A custom header overrides the default Date; nothing else is added. */
  lemma DefaultHeadersGet(custom: Dict, date: string, k: string)
    requires Valid(custom)
    ensures Get(DefaultHeaders(custom, date), k) ==
      if k in custom.values then Some(custom.values[k]) else if k == "Date" then Some(date) else None
  {
    UpdateGet(Set(EmptyDict, "Date", date), custom, k);
  }

  /** A name that lower-cases to neither an x-amz- name nor a special one: its first letter and length rule both out. */
  lemma UnsignedByShape(k: string)
    requires |k| > 12 && k[0] != 'x' && k[0] != 'X'
    ensures !IsSignedName(Lower(k))
  {
    var l := Lower(k);
    assert l[0] != 'x';
    assert l[0] != "x-amz-"[0];
  }

  /** Content-Length is not signed, so adding it leaves the StringToSign as it was. */
  lemma LengthUnsigned(verb: string, h: Dict, n: string, bucket: string, key: string)
    requires Valid(h) && IsByteString(key)
    ensures StringToSign(verb, Set(h, "Content-Length", n), bucket, key) == StringToSign(verb, h, bucket, key)
  {
    UnsignedByShape("Content-Length");
    UnsignedHeaderIrrelevant(verb, h, "Content-Length", n, bucket, key);
  }

  /** Two different keys stored one after the other: both hold their values, the rest is untouched. */
  lemma StoredOver(d: Dict, k1: string, v1: string, k2: string, v2: string)
    requires Valid(d) && k1 != k2
    ensures var r := Set(Set(d, k1, v1), k2, v2);
      && Get(r, k1) == Some(v1) && Get(r, k2) == Some(v2)
      && forall k :: k != k1 && k != k2 ==> Get(r, k) == Get(d, k)
  {
  }

  /**
   * `put_object`: the default headers, then Content-Length, then (with a
   * truthy access key id) Authorization signed over the headers so far.
   * The request goes to the bucket host and the unquoted key.
   */
  method PutObject(prims: Primitives, c: S3Client, key: string, body: string, custom: Dict, date: string)
    returns (req: HttpRequest)
    requires Valid(custom) && IsByteString(key)
    ensures req.verb == "PUT" && req.url == Host(c) + "/" + key && req.body == body
    ensures Valid(req.headers)
    ensures Get(req.headers, "Content-Length") == Some(NatToString(|body|))
    ensures Truthy(c.accessKeyId) ==>
      Get(req.headers, "Authorization") == Some(AuthValue(prims, c, "PUT", key, DefaultHeaders(custom, date)))
    ensures !Truthy(c.accessKeyId) ==> Get(req.headers, "Authorization") == Get(custom, "Authorization")
    ensures forall k :: k != "Content-Length" && k != "Authorization" ==>
      Get(req.headers, k) == Get(DefaultHeaders(custom, date), k)
  {
    var headers := DefaultHeaders(custom, date);
    ghost var defaults := headers;
    headers := Set(headers, "Content-Length", NatToString(|body|));
    if Truthy(c.accessKeyId) {
      var auth := AuthHeader(prims, c, "PUT", key, headers);
      LengthUnsigned("PUT", defaults, NatToString(|body|), c.bucket, key);
      headers := Set(headers, "Authorization", auth);
      StoredOver(defaults, "Content-Length", NatToString(|body|), "Authorization", auth);
    } else {
      DefaultHeadersGet(custom, date, "Authorization");
    }
    req := HttpRequest("PUT", Host(c) + "/" + key, headers, body);
  }

  // -----------------------------------------------------------------------
  // `put_cdn_content`

  /** Ten years in seconds: the CDN cache lifetime. */
  const TenYears: nat := 86400 * 365 * 10

  const CacheControl: string := "public, max-age=" + NatToString(TenYears)

  /** The MIME type: the given one, else the guess from the file name, else "application/unknown". */
  function MimeFor(prims: Primitives, fileName: Option<string>, mimeType: Option<string>): (m: string)
    ensures m != ""
    ensures Truthy(mimeType) ==> m == mimeType.value
    ensures !Truthy(mimeType) && Truthy(fileName) && Truthy(prims.guessType(fileName.value)) ==>
      m == prims.guessType(fileName.value).value
    ensures !Truthy(mimeType) && !(Truthy(fileName) && Truthy(prims.guessType(fileName.value))) ==>
      m == "application/unknown"
  {
    var chosen := if !Truthy(mimeType) && Truthy(fileName) then prims.guessType(fileName.value) else mimeType;
    if Truthy(chosen) then chosen.value else "application/unknown"
  }

  /** The object key: the hex SHA-1 of the MIME type, "|" and the data. */
  function ContentKey(prims: Primitives, mime: string, data: string): (key: string)
    ensures |key| == 2 * |prims.sha1(mime + "|" + data)|
    ensures forall i :: 0 <= i < |key| ==> IsLowerHexDigit(key[i])
    ensures Unhex(key) == prims.sha1(mime + "|" + data)
  {
    HexRoundTrip(prims.sha1(mime + "|" + data));
    Hex(prims.sha1(mime + "|" + data))
  }

  /** The content key needs no quoting, so the signed resource is `/bucket/` followed by the key itself. */
  lemma ContentKeyUnquoted(prims: Primitives, mime: string, data: string)
    ensures IsByteString(ContentKey(prims, mime, data))
    ensures QuotePlus(ContentKey(prims, mime, data)) == ContentKey(prims, mime, data)
  {
    QuotePlusHex(ContentKey(prims, mime, data));
  }

  /** `re.sub(r"[\x00-\x1f]", " ", s)`. */
  function ReplaceControl(s: string): (r: string)
    ensures |r| == |s|
    ensures forall i :: 0 <= i < |s| ==> r[i] == if s[i] < ' ' then ' ' else s[i]
  {
    if s == [] then []
    else [if s[0] < ' ' then ' ' else s[0]] + ReplaceControl(s[1..])
  }

  const MaxFileName := 4000

  /** The file-name guard: the name differs from itself with control characters blanked, cut to 4000. */
  predicate UnsafeName(f: string) {
    f != ReplaceControl(f)[..if |f| < MaxFileName then |f| else MaxFileName]
  }

  /** A file name is refused exactly when it holds a control character or is longer than 4000. */
  lemma UnsafeNameIff(f: string)
    ensures UnsafeName(f) <==> |f| > MaxFileName || exists i :: 0 <= i < |f| && f[i] < ' '
  {
    var r := ReplaceControl(f);
    if |f| <= MaxFileName {
      assert r[..|f|] == r;
      if exists i :: 0 <= i < |f| && f[i] < ' ' {
        var i :| 0 <= i < |f| && f[i] < ' ';
        assert r[i] != f[i];
      } else {
        assert r == f;
      }
    }
  }

  /**
   * `split("/")[-1]`, then `split("\\")[-1]`, then `replace('"', '')`, then
   * `strip()`, which removes Unicode white space when the name is `unicode`.
   */
  function SanitizeName(f: string, unicode: bool): string {
    Strip(RemoveChar(AfterLast(AfterLast(f, '/'), '\\'), '"'), unicode)
  }

  lemma SuffixMembers(s: string, r: string)
    requires |r| <= |s| && r == s[|s| - |r|..]
    ensures forall c :: c in r ==> c in s
  {
    forall c | c in r
      ensures c in s
    {
      var i :| 0 <= i < |r| && r[i] == c;
      assert s[|s| - |r| + i] == c;
    }
  }

  /** A sanitised name holds no path separator and no double quote, and has no white space at either end. */
  lemma SanitizedClean(f: string, unicode: bool)
    ensures var r := SanitizeName(f, unicode);
      '/' !in r && '\\' !in r && '"' !in r
      && (r == [] || (!IsWhite(r[0], unicode) && !IsWhite(r[|r| - 1], unicode)))
      && forall c :: c in r ==> c in f
  {
    var a := AfterLast(f, '/');
    var b := AfterLast(a, '\\');
    SuffixMembers(f, a);
    SuffixMembers(a, b);
  }

  /**
   * Trailing white space of the name never reaches the Content-Disposition:
   * for a `unicode` name this includes the non-ASCII spaces such as U+00A0.
   */
  lemma TrailingWhiteDropped(f: string, c: char, unicode: bool)
    requires IsWhite(c, unicode)
    ensures SanitizeName(f + [c], unicode) == SanitizeName(f, unicode)
  {
    WhiteNotSeparator(c, unicode);
    var a := AfterLast(f, '/');
    AfterLastLast(f, c, '/');
    var b := AfterLast(a, '\\');
    AfterLastLast(a, c, '\\');
    RemoveCharLast(b, c, '"');
    StripTrailingWhite(RemoveChar(b, '"'), c, unicode);
  }

  /** The Content-Disposition value for a non-empty sanitised name. */
  function Disposition(name: string): string {
    "inline; filename=\"" + name + "\""
  }

  /** The header dict literal of `put_cdn_content`. */
  function CdnHeaders(mime: string, expires: string): (r: Dict)
    ensures Valid(r)
  {
    var h := Set(EmptyDict, "Content-Type", mime);
    var h := Set(h, "Expires", expires);
    var h := Set(h, "Cache-Control", CacheControl);
    var h := Set(h, "Vary", "Accept-Encoding");
    Set(h, "x-amz-acl", "public-read")
  }

  /** The header names `put_cdn_content` and `put_object` use are pairwise distinct. */
  lemma HeaderNamesDistinct()
    ensures "Content-Type" != "Expires"
      && "Content-Type" != "Cache-Control"
      && "Content-Type" != "Vary"
      && "Content-Type" != "x-amz-acl"
      && "Content-Type" != "Date"
      && "Content-Type" != "Content-Length"
      && "Content-Type" != "Authorization"
      && "Content-Type" != "Content-Disposition"
      && "Expires" != "Cache-Control"
      && "Expires" != "Vary"
      && "Expires" != "x-amz-acl"
      && "Expires" != "Date"
      && "Expires" != "Content-Length"
      && "Expires" != "Authorization"
      && "Expires" != "Content-Disposition"
      && "Cache-Control" != "Vary"
      && "Cache-Control" != "x-amz-acl"
      && "Cache-Control" != "Date"
      && "Cache-Control" != "Content-Length"
      && "Cache-Control" != "Authorization"
      && "Cache-Control" != "Content-Disposition"
      && "Vary" != "x-amz-acl"
      && "Vary" != "Date"
      && "Vary" != "Content-Length"
      && "Vary" != "Authorization"
      && "Vary" != "Content-Disposition"
      && "x-amz-acl" != "Date"
      && "x-amz-acl" != "Content-Length"
      && "x-amz-acl" != "Authorization"
      && "x-amz-acl" != "Content-Disposition"
      && "Date" != "Content-Length"
      && "Date" != "Authorization"
      && "Date" != "Content-Disposition"
      && "Content-Length" != "Authorization"
      && "Content-Length" != "Content-Disposition"
      && "Authorization" != "Content-Disposition"
  {
    assert |"Content-Type"| == 12 && "Content-Type"[0] == 'C';
    assert |"Expires"| == 7 && "Expires"[0] == 'E';
    assert |"Cache-Control"| == 13 && "Cache-Control"[0] == 'C';
    assert |"Vary"| == 4 && "Vary"[0] == 'V';
    assert |"x-amz-acl"| == 9 && "x-amz-acl"[0] == 'x';
    assert |"Date"| == 4 && "Date"[0] == 'D';
    assert |"Content-Length"| == 14 && "Content-Length"[0] == 'C';
    assert |"Authorization"| == 13 && "Authorization"[0] == 'A';
    assert |"Content-Disposition"| == 19 && "Content-Disposition"[0] == 'C';
  }

  /** The CDN dict holds exactly its five headers. */
  lemma CdnHeadersGet(mime: string, expires: string, k: string)
    ensures Get(CdnHeaders(mime, expires), k) ==
      if k == "Content-Type" then Some(mime)
      else if k == "Expires" then Some(expires)
      else if k == "Cache-Control" then Some(CacheControl)
      else if k == "Vary" then Some("Accept-Encoding")
      else if k == "x-amz-acl" then Some("public-read")
      else None
  {
  }

  /** The first steps of `put_cdn_content`: the given MIME type, else the guess from the file name, else the default. */
  method DefaultMime(prims: Primitives, fileName: Option<string>, mimeType: Option<string>) returns (m: string)
    ensures m == MimeFor(prims, fileName, mimeType)
  {
    var mime := mimeType;
    if !Truthy(mime) && Truthy(fileName) {
      mime := prims.guessType(fileName.value);
    }
    m := if Truthy(mime) then mime.value else "application/unknown";
  }

  /**
   * The file-name steps of `put_cdn_content`: an unsafe name is refused, a
   * safe one is cut to its last path segment, unquoted and stripped.
   */
  method CheckFileName(fileName: Option<string>, unicodeName: bool) returns (r: Result<Option<string>, CdnError>)
    ensures r.Failure? <==> Truthy(fileName) && UnsafeName(fileName.value)
    ensures r.Failure? ==> r.error == UnsafeFileName(fileName.value)
    ensures r.Success? ==> r.value == if Truthy(fileName) then Some(SanitizeName(fileName.value, unicodeName)) else fileName
  {
    var name := fileName;
    if Truthy(name) {
      if UnsafeName(name.value) {
        return Failure(UnsafeFileName(name.value));
      }
      var n := AfterLast(name.value, '/');
      n := AfterLast(n, '\\');
      n := RemoveChar(n, '"');
      n := Strip(n, unicodeName);
      name := Some(n);
    }
    r := Success(name);
  }

  /**
   * `put_cdn_content`: defaults the MIME type, keys the object by its
   * content hash, refuses an unsafe file name, adds a Content-Disposition
   * for a non-empty sanitised name, and puts the object with the CDN headers.
   * `unicodeName` is `isinstance(file_name, unicode)`, which decides the
   * white space `strip()` removes.
   */
  method PutCdnContent(prims: Primitives, c: S3Client, data: string, fileName: Option<string>, unicodeName: bool,
                       mimeType: Option<string>, now: string, expires: string)
    returns (r: Result<CdnUpload, CdnError>)
    ensures r.Failure? <==> Truthy(fileName) && UnsafeName(fileName.value)
    ensures r.Failure? ==> r.error == UnsafeFileName(fileName.value)
    ensures r.Success? ==>
      var mime := MimeFor(prims, fileName, mimeType);
      var req := r.value.request;
      r.value.key == ContentKey(prims, mime, data)
      && req.verb == "PUT" && req.url == Host(c) + "/" + r.value.key && req.body == data
      && CdnRequestHeaders(req.headers, mime, expires, now, data)
      && Get(req.headers, "Content-Disposition") ==
        (if Truthy(fileName) && SanitizeName(fileName.value, unicodeName) != ""
         then Some(Disposition(SanitizeName(fileName.value, unicodeName))) else None)
      && (Get(req.headers, "Authorization").Some? <==> Truthy(c.accessKeyId))
      && (Truthy(c.accessKeyId) ==>
            Get(req.headers, "Authorization") ==
              Some(AuthValue(prims, c, "PUT", r.value.key, DefaultHeaders(CdnCustom(mime, expires, CleanName(fileName, unicodeName)), now))))
      && (forall k :: !IsCdnHeaderName(k) ==> Get(req.headers, k) == None)
  {
    var m := DefaultMime(prims, fileName, mimeType);
    var headers := CdnHeaders(m, expires);
    var fileHash := Hex(prims.sha1(m + "|" + data));
    var checked := CheckFileName(fileName, unicodeName);
    if checked.Failure? {
      return Failure(checked.error);
    }
    var name := checked.value;
    if Truthy(name) {
      headers := Set(headers, "Content-Disposition", Disposition(name.value));
    }
    ContentKeyUnquoted(prims, m, data);
    var req := PutObject(prims, c, fileHash, data, headers, now);
    assert headers == CdnCustom(m, expires, CleanName(fileName, unicodeName));
    forall k | !IsCdnHeaderName(k)
      ensures Get(req.headers, k) == None
    {
      NoOtherLanded(headers, req.headers, m, expires, now, name, k);
    }
    CdnFiveLanded(headers, req.headers, m, expires, now, name);
    DateAndDispositionLanded(headers, req.headers, m, expires, now, name);
    AuthorizationLanded(c, headers, req.headers, m, expires, name);
    r := Success(CdnUpload(fileHash, req));
  }

  /** The file name as `put_cdn_content` keeps it: sanitised when non-empty, as given otherwise. */
  function CleanName(fileName: Option<string>, unicodeName: bool): Option<string> {
    if Truthy(fileName) then Some(SanitizeName(fileName.value, unicodeName)) else fileName
  }

  /** The custom headers `put_cdn_content` hands to `put_object`: the CDN dict, with Content-Disposition for a non-empty name. */
  function CdnCustom(mime: string, expires: string, name: Option<string>): (r: Dict)
    ensures Valid(r)
  {
    if Truthy(name) then Set(CdnHeaders(mime, expires), "Content-Disposition", Disposition(name.value))
    else CdnHeaders(mime, expires)
  }

  /** The nine header names a CDN request can carry. */
  predicate IsCdnHeaderName(k: string) {
    k == "Content-Type" || k == "Expires" || k == "Cache-Control" || k == "Vary" || k == "x-amz-acl"
    || k == "Date" || k == "Content-Length" || k == "Authorization" || k == "Content-Disposition"
  }

  /** No header beyond those nine reaches the request. */
  lemma NoOtherLanded(headers: Dict, hs: Dict, mime: string, expires: string, now: string, name: Option<string>, k: string)
    requires headers == if Truthy(name) then Set(CdnHeaders(mime, expires), "Content-Disposition", Disposition(name.value))
      else CdnHeaders(mime, expires)
    requires forall k' :: k' != "Content-Length" && k' != "Authorization" ==>
      Get(hs, k') == Get(DefaultHeaders(headers, now), k')
    requires !IsCdnHeaderName(k)
    ensures Get(hs, k) == None
  {
    LandedKey(hs, headers, now, k);
    CustomKey(mime, expires, name, headers, k);
    CdnHeadersGet(mime, expires, k);
  }

  /** The CDN headers, the Date default and Content-Length reach the request. */
  ghost predicate CdnRequestHeaders(hs: Dict, mime: string, expires: string, now: string, data: string) {
    Get(hs, "Content-Type") == Some(mime)
    && Get(hs, "Expires") == Some(expires)
    && Get(hs, "Cache-Control") == Some(CacheControl)
    && Get(hs, "Vary") == Some("Accept-Encoding")
    && Get(hs, "x-amz-acl") == Some("public-read")
    && Get(hs, "Date") == Some(now)
    && Get(hs, "Content-Length") == Some(NatToString(|data|))
  }

  /** A header other than Content-Length and Authorization reaches the request as `_default_headers` left it. */
  lemma LandedKey(hs: Dict, custom: Dict, now: string, k: string)
    requires Valid(custom)
    requires forall k' :: k' != "Content-Length" && k' != "Authorization" ==>
      Get(hs, k') == Get(DefaultHeaders(custom, now), k')
    requires k != "Content-Length" && k != "Authorization"
    ensures Get(hs, k) == if k in custom.values then Get(custom, k) else if k == "Date" then Some(now) else None
  {
    DefaultHeadersGet(custom, now, k);
  }

  /** One CDN header, looked up in the custom dict with the optional Content-Disposition. */
  lemma CustomKey(mime: string, expires: string, name: Option<string>, headers: Dict, k: string)
    requires headers == if Truthy(name) then Set(CdnHeaders(mime, expires), "Content-Disposition", Disposition(name.value))
      else CdnHeaders(mime, expires)
    requires k != "Content-Disposition"
    ensures Get(headers, k) == Get(CdnHeaders(mime, expires), k)
  {
  }

  /** A CDN header other than Date and Content-Disposition reaches the request as the CDN dict holds it. */
  lemma CdnKeyLanded(headers: Dict, hs: Dict, mime: string, expires: string, now: string, name: Option<string>, k: string)
    requires headers == if Truthy(name) then Set(CdnHeaders(mime, expires), "Content-Disposition", Disposition(name.value))
      else CdnHeaders(mime, expires)
    requires forall k' :: k' != "Content-Length" && k' != "Authorization" ==>
      Get(hs, k') == Get(DefaultHeaders(headers, now), k')
    requires k != "Content-Length" && k != "Authorization" && k != "Content-Disposition" && k != "Date"
    ensures Get(hs, k) == Get(CdnHeaders(mime, expires), k)
  {
    LandedKey(hs, headers, now, k);
    CustomKey(mime, expires, name, headers, k);
  }

  /** The five CDN headers reach the request. */
  lemma CdnFiveLanded(headers: Dict, hs: Dict, mime: string, expires: string, now: string, name: Option<string>)
    requires headers == if Truthy(name) then Set(CdnHeaders(mime, expires), "Content-Disposition", Disposition(name.value))
      else CdnHeaders(mime, expires)
    requires forall k :: k != "Content-Length" && k != "Authorization" ==>
      Get(hs, k) == Get(DefaultHeaders(headers, now), k)
    ensures Get(hs, "Content-Type") == Some(mime)
    ensures Get(hs, "Expires") == Some(expires)
    ensures Get(hs, "Cache-Control") == Some(CacheControl)
    ensures Get(hs, "Vary") == Some("Accept-Encoding")
    ensures Get(hs, "x-amz-acl") == Some("public-read")
  {
    HeaderNamesDistinct();
    CdnKeyLanded(headers, hs, mime, expires, now, name, "Content-Type");
    CdnKeyLanded(headers, hs, mime, expires, now, name, "Expires");
    CdnKeyLanded(headers, hs, mime, expires, now, name, "Cache-Control");
    CdnKeyLanded(headers, hs, mime, expires, now, name, "Vary");
    CdnKeyLanded(headers, hs, mime, expires, now, name, "x-amz-acl");
    CdnHeadersGet(mime, expires, "Content-Type");
    CdnHeadersGet(mime, expires, "Expires");
    CdnHeadersGet(mime, expires, "Cache-Control");
    CdnHeadersGet(mime, expires, "Vary");
    CdnHeadersGet(mime, expires, "x-amz-acl");
  }

  /** The Date default survives, and Content-Disposition is there exactly for a non-empty name. */
  lemma DateAndDispositionLanded(headers: Dict, hs: Dict, mime: string, expires: string, now: string, name: Option<string>)
    requires headers == if Truthy(name) then Set(CdnHeaders(mime, expires), "Content-Disposition", Disposition(name.value))
      else CdnHeaders(mime, expires)
    requires forall k :: k != "Content-Length" && k != "Authorization" ==>
      Get(hs, k) == Get(DefaultHeaders(headers, now), k)
    ensures Get(hs, "Date") == Some(now)
    ensures Get(hs, "Content-Disposition") == if Truthy(name) then Some(Disposition(name.value)) else None
  {
    HeaderNamesDistinct();
    CdnHeadersGet(mime, expires, "Date");
    CdnHeadersGet(mime, expires, "Content-Disposition");
    CustomKey(mime, expires, name, headers, "Date");
    LandedKey(hs, headers, now, "Date");
    LandedKey(hs, headers, now, "Content-Disposition");
  }

  /** Authorization is set exactly when there is an access key: the CDN dict never holds one. */
  lemma AuthorizationLanded(c: S3Client, headers: Dict, hs: Dict, mime: string, expires: string, name: Option<string>)
    requires headers == if Truthy(name) then Set(CdnHeaders(mime, expires), "Content-Disposition", Disposition(name.value))
      else CdnHeaders(mime, expires)
    requires Truthy(c.accessKeyId) ==> Get(hs, "Authorization").Some?
    requires !Truthy(c.accessKeyId) ==> Get(hs, "Authorization") == Get(headers, "Authorization")
    ensures Get(hs, "Authorization").Some? <==> Truthy(c.accessKeyId)
  {
    HeaderNamesDistinct();
    CdnHeadersGet(mime, expires, "Authorization");
    CustomKey(mime, expires, name, headers, "Authorization");
  }
}
