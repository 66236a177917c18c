// The site's bundled assets: their size before they are decoded, the cached bytes,
// and the responses to whole and ranged requests.
module ProtectedAssets {
  import opened Wrappers
  import opened Base64
  import opened ByteRanges

  datatype AssetError = NotBase64DataUrl | NotBase64

  // ----- data URLs

  function IndexOf(s: string, c: char): (i: nat)
    ensures i <= |s| && c !in s[..i]
    ensures i < |s| ==> s[i] == c
  {
    if s == "" || s[0] == c then 0
    else
      var i := IndexOf(s[1..], c);
      assert s[..i + 1] == [s[0]] + s[1..][..i];
      i + 1
  }

  /** What follows the first comma, if what precedes it ends in `;base64`. */
  function Encoded(dataUrl: string): Result<string, AssetError> {
    var separator := IndexOf(dataUrl, ',');
    if separator == |dataUrl| || !EndsWith(dataUrl[..separator], ";base64") then Err(NotBase64DataUrl)
    else Ok(dataUrl[separator + 1..])
  }

  /** `bundledAssetSize`: a number computed from lengths alone. */
  function BundledAssetSize(dataUrl: string): Result<real, AssetError> {
    var separator := IndexOf(dataUrl, ',');
    if separator == |dataUrl| || !EndsWith(dataUrl[..separator], ";base64") then Err(NotBase64DataUrl)
    else
      var padding := if EndsWith(dataUrl, "==") then 2 else if EndsWith(dataUrl, "=") then 1 else 0;
      Ok(((|dataUrl| - separator - 1) * 3) as real / 4.0 - padding as real)
  }

  /** The padding of the whole URL is the padding of what follows the comma. */
  lemma PaddingOfEncoded(dataUrl: string, encoded: string)
    requires Encoded(dataUrl) == Ok(encoded)
    ensures BundledAssetSize(dataUrl) == Ok(Size(|encoded|, PaddingCount(encoded)))
  {
    var separator := IndexOf(dataUrl, ',');
    assert dataUrl[separator] == ',';
    if |encoded| >= 2 {
      assert dataUrl[|dataUrl| - 2..] == encoded[|encoded| - 2..];
    }
    if |encoded| >= 1 {
      assert dataUrl[|dataUrl| - 1..] == encoded[|encoded| - 1..];
      assert |encoded| == 1 ==> dataUrl[|dataUrl| - 2] == ',';
    } else {
      assert dataUrl[|dataUrl| - 1] == ',';
    }
  }

  function Content(dataUrl: string): Result<seq<Byte>, AssetError> {
    match Encoded(dataUrl)
    case Err(e) => Err(e)
    case Ok(encoded) => match Atob(encoded) case None => Err(NotBase64) case Some(bytes) => Ok(bytes)
  }

  /** For any accepted text the size is right exactly when it is whole quads without blanks. */
  lemma BundledSizeExactly(dataUrl: string, encoded: string, content: seq<Byte>)
    requires Encoded(dataUrl) == Ok(encoded) && Content(dataUrl) == Ok(content)
    ensures BundledAssetSize(dataUrl) == Ok(|content| as real) <==> IsBlankFree(encoded) && |encoded| % 4 == 0
  {
    PaddingOfEncoded(dataUrl, encoded);
    SizeIsRightExactly(encoded);
  }

  /** Every byte string, encoded under any media type, has its own length as computed size. */
  lemma EncodedSizeIsLength(mediaType: string, content: seq<Byte>)
    requires ',' !in mediaType
    ensures var url := mediaType + ";base64," + Encode(content);
            BundledAssetSize(url) == Ok(|content| as real) && Content(url) == Ok(content)
  {
    var url := mediaType + ";base64," + Encode(content);
    var separator := |mediaType| + 7;
    assert url[..separator] == mediaType + ";base64";
    assert url[separator] == ',' && ',' !in url[..separator];
    IndexIs(url, ',', separator);
    assert url[separator + 1..] == Encode(content);
    AtobInvertsEncode(content);
    BundledSizeExactly(url, Encode(content), content);
  }

  lemma {:induction false} IndexIs(s: string, c: char, i: nat)
    requires i < |s| && s[i] == c && c !in s[..i]
    ensures IndexOf(s, c) == i
  {
    if i > 0 {
      assert s[0] == s[..i][0] && s[1..][..i - 1] == s[..i][1..];
      IndexIs(s[1..], c, i - 1);
    }
  }

  /** The loop that copies the decoded characters into the byte array. */
  method DecodeDataUrl(dataUrl: string) returns (error: Option<AssetError>, bytes: array<Byte>)
    ensures fresh(bytes)
    ensures error.None? <==> Content(dataUrl).Ok?
    ensures Content(dataUrl).Ok? ==> bytes[..] == Content(dataUrl).value
    ensures Content(dataUrl).Err? ==> error == Some(Content(dataUrl).error)
  {
    var content := Content(dataUrl);
    if content.Err? {
      bytes := new Byte[0];
      return Some(content.error), bytes;
    }
    var binary := content.value;
    bytes := new Byte[|binary|];
    var index := 0;
    while index < |binary|
      invariant 0 <= index <= |binary| && fresh(bytes) && bytes.Length == |binary|
      invariant bytes[..index] == binary[..index]
    {
      bytes[index] := binary[index];
      index := index + 1;
    }
    error := None;
    assert binary[..index] == binary && bytes[..index] == bytes[..];
  }

  // ----- responses

  const VIDEO := "airwiki-demo.mp4"

  datatype ContentRange = Unsatisfied(size: real) | Satisfied(start: real, end: real, size: real)

  /** The status, the headers that depend on the request, and the body. */
  datatype Response = Response(status: nat, contentLength: real, contentRange: Option<ContentRange>,
                               acceptRanges: bool, body: Option<seq<Byte>>)

  /** JavaScript's conversion of a number to an index. */
  function Truncated(x: real): int { if x >= 0.0 then x.Floor else -((-x).Floor) }

  function Index(x: real, length: nat): nat {
    var k := Truncated(x);
    if k < 0 then (if length + k < 0 then 0 else length + k) else if k > length then length else k
  }

  /** `bytes.slice(from, to)`: cut to the bytes there are, counted from the end where negative. */
  function Slice(bytes: seq<Byte>, from: real, to: real): seq<Byte> {
    var a, b := Index(from, |bytes|), Index(to, |bytes|);
    if a <= b then bytes[a..b] else []
  }

  predicate AsksForRange(name: string, header: Option<string>) {
    name == VIDEO && header.Some? && IsSingleByteRange(header.value)
  }

  /** The status and headers for an asset of some computed size; the method of the request does not matter. */
  predicate Heads(r: Response, name: string, header: Option<string>, size: real) {
    && (r.acceptRanges <==> name == VIDEO)
    && if !AsksForRange(name, header) then r.status == 200 && r.contentRange == None && r.contentLength == size
       else
         match ParseByteRange(header.value, size)
         case Ignore => false
         case Unsatisfiable => r.status == 416 && r.contentRange == Some(Unsatisfied(size)) && r.contentLength == 0.0
         case Range(start, end) =>
           r.status == 206 && r.contentRange == Some(Satisfied(start, end, size))
               && r.contentLength == end - start + 1.0
  }

  /** The body of a GET: the content, or the slice that the range asks for. */
  predicate Carries(r: Response, header: Option<string>, size: real, content: seq<Byte>) {
    match r.status
    case 200 => r.body == Some(content)
    case 206 =>
      header.Some? && ParseByteRange(header.value, size).Range?
      && var range := ParseByteRange(header.value, size);
         r.body == Some(Slice(content, range.start, range.end + 1.0))
    case _ => r.body == None
  }

  /** The body is as long as `Content-Length` says. */
  predicate IsHonest(r: Response) { r.body.Some? ==> r.contentLength == |r.body.value| as real }

  /** With the right size, a partial body holds exactly the positions that the header names, in order. */
  lemma PartialBody(value: string, first: string, last: string, content: seq<Byte>, k: nat) returns (a: nat, b: nat)
    requires Matches(value, first, last) && ParseByteRange(value, |content| as real).Range?
    ensures var r := ParseByteRange(value, |content| as real);
            && r == Range(a as real, b as real) && a <= b < |content|
            && Slice(content, r.start, r.end + 1.0) == content[a..b + 1]
            && (a <= k <= b <==> Names(first, last, |content|, k))
  {
    a, b := RangeSelects(value, first, last, |content|, k);
    WholeIndex(a, |content|);
    WholeIndex(b + 1, |content|);
  }

  lemma WholeIndex(k: nat, length: nat)
    requires k <= length
    ensures Index(k as real, length) == k
  {
  }

  /** Every answer to a GET is as long as it says when the size is right. */
  lemma RightSizeIsHonest(r: Response, name: string, header: Option<string>, content: seq<Byte>)
    requires Heads(r, name, header, |content| as real) && Carries(r, header, |content| as real, content)
    ensures IsHonest(r)
  {
    if r.status == 206 {
      var groups := Match(header.value).value;
      MatchExactly(header.value, groups.0, groups.1);
      var a, b := PartialBody(header.value, groups.0, groups.1, content, 0);
    }
  }

  ghost predicate AlwaysHonest(size: real, content: seq<Byte>) {
    forall r: Response, name: string, header: Option<string> ::
      Heads(r, name, header, size) && Carries(r, header, size, content) ==> IsHonest(r)
  }

  /**
   * An asset that decodes is always served with the length of what is sent, exactly
   * when its text is whole quads without blanks.
   */
  lemma AlwaysHonestExactly(dataUrl: string, size: real, encoded: string, content: seq<Byte>)
    requires BundledAssetSize(dataUrl) == Ok(size) && Encoded(dataUrl) == Ok(encoded) && Content(dataUrl) == Ok(content)
    ensures AlwaysHonest(size, content) <==> IsBlankFree(encoded) && |encoded| % 4 == 0
  {
    BundledSizeExactly(dataUrl, encoded, content);
    if size == |content| as real {
      forall r: Response, name: string, header: Option<string>
        | Heads(r, name, header, size) && Carries(r, header, size, content)
        ensures IsHonest(r)
      {
        RightSizeIsHonest(r, name, header, content);
      }
    } else {
      var whole := Response(200, size, None, false, Some(content));
      assert Heads(whole, "", None, size) && Carries(whole, None, size, content) && !IsHonest(whole);
    }
  }

  class ProtectedAsset {
    var bytes: array?<Byte>
    const dataUrl: string
    const size: real

    /** The size is the computed one, and cached bytes are the content. */
    ghost predicate Valid()
      reads this, bytes
    {
      && BundledAssetSize(dataUrl) == Ok(size)
      && (bytes != null ==> Content(dataUrl) == Ok(bytes[..]))
    }

    /** The size is taken from the lengths; nothing is decoded. */
    constructor (dataUrl: string, size: real)
      requires BundledAssetSize(dataUrl) == Ok(size)
      ensures Valid() && this.dataUrl == dataUrl && this.size == size && bytes == null
    {
      this.dataUrl := dataUrl;
      this.size := size;
      bytes := null;
    }

    /** Decodes on the first use and hands out the same array ever after; what does not decode fails every time. */
    method AssetBytes() returns (r: Result<array<Byte>, AssetError>)
      requires Valid()
      modifies this`bytes
      ensures Valid()
      ensures Content(dataUrl).Err? ==> r == Err(Content(dataUrl).error) && bytes == old(bytes) == null
      ensures Content(dataUrl).Ok? ==> r.Ok? && r.value == bytes && Content(dataUrl) == Ok(r.value[..])
      ensures r.Ok? ==> if old(bytes) == null then fresh(r.value) else r.value == old(bytes)
    {
      if bytes == null {
        var error, decoded := DecodeDataUrl(dataUrl);
        if error.Some? {
          return Err(error.value);
        }
        bytes := decoded;
      }
      return Ok(bytes);
    }

    /** A HEAD decodes nothing and cannot fail; a GET fails exactly where the content does not decode. */
    method SecuredAssetResponse(isHead: bool, name: string, header: Option<string>)
      returns (r: Result<Response, AssetError>)
      requires Valid()
      modifies this`bytes
      ensures Valid() && (isHead ==> bytes == old(bytes))
      ensures r.Err? <==> !isHead && Content(dataUrl).Err?
      ensures r.Err? ==> r.error == Content(dataUrl).error
      ensures r.Ok? ==> Heads(r.value, name, header, size)
      ensures r.Ok? && isHead ==> r.value.body == None
      ensures r.Ok? && !isHead ==> Carries(r.value, header, size, Content(dataUrl).value)
    {
      var content: Option<seq<Byte>> := None;
      if !isHead {
        var whole := AssetBytes();
        if whole.Err? {
          return Err(whole.error);
        }
        content := Some(whole.value[..]);
      }
      if name == VIDEO && header.Some? && IsSingleByteRange(header.value) {
        IgnoredExactly(header.value, size);
        match ParseByteRange(header.value, size) {
          case Ignore =>
            assert false;
          case Unsatisfiable =>
            return Ok(Response(416, 0.0, Some(Unsatisfied(size)), true, None));
          case Range(start, end) =>
            var part := if content.Some? then Some(Slice(content.value, start, end + 1.0)) else None;
            return Ok(Response(206, end - start + 1.0, Some(Satisfied(start, end, size)), true, part));
        }
      }
      r := Ok(Response(200, size, None, name == VIDEO, content));
    }
  }

  /** An entry of the table of assets; the text that is not a base64 data URL fails here. */
  method Bundle(dataUrl: string) returns (r: Result<ProtectedAsset, AssetError>)
    ensures r.Ok? <==> Encoded(dataUrl).Ok?
    ensures r.Err? ==> r == Err(NotBase64DataUrl)
    ensures r.Ok? ==> fresh(r.value) && r.value.Valid() && r.value.dataUrl == dataUrl && r.value.bytes == null
  {
    var size := BundledAssetSize(dataUrl);
    if size.Err? {
      return Err(size.error);
    }
    var asset := new ProtectedAsset(dataUrl, size.value);
    return Ok(asset);
  }
}
