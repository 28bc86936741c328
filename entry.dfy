/** One embedded asset found in a CSS property value: the object the
    analyser pushes for each value that mentions `data:`. */
module DataUriEntry {
  import opened Wrappers
  import opened Utf8
  import opened RegexScan

  /** `type` and `typeRaw` of the source are `mediaType` and `mediaTypeRaw`
      here (`type` is a reserved word). */
  datatype Entry = Entry(
    sizeRaw: nat,
    size: string,
    mediaType: string,
    mediaTypeRaw: string,
    displayValue: string)

  /** Which `exec(...)` came back null before being indexed with `[1]`.
      JavaScript's TypeError for `null[1]` carries the same message at all
      three captures; this tag and the searched string are bookkeeping of the
      model, so that lemmas can say which capture and which value failed. */
  datatype NullCapture = UrlArgument | MediaType | MediaTypeRaw

  /** The TypeError thrown by indexing null. `failed` and `subject` are not
      part of the thrown error's message; see `NullCapture`. */
  datatype Error = TypeError(failed: NullCapture, subject: string)

  /** The marker both the filter and the media-type patterns look for. */
  const Marker: string := "data:"

  /** `/\((.*?)\)/.exec(value)[1]`: the text inside the first parenthesised
      group on one line, the URI string. */
  function UriString(value: string): (r: Option<string>)
    ensures r.None? <==> forall j :: !MatchesAt(value, "(", ')', j)
    ensures r.Some? ==> ')' !in r.value && OneLine(r.value)
  {
    Capture(value, "(", ')')
  }

  /** Builds the entry for one property value, or the TypeError the source
      throws when one of the three captures finds nothing. `formatBytes` is the
      byte formatter the source imports; it is not part of this model. */
  function MakeEntry(value: string, formatBytes: nat -> string): (r: Result<Entry, Error>)
    ensures r.Success? ==> r.value.size == formatBytes(r.value.sizeRaw)
  {
    match UriString(value)
    case None => Failure(TypeError(UrlArgument, value))
    case Some(uri) =>
      var size := ByteLength(uri);
      match Capture(uri, Marker, '/')
      case None => Failure(TypeError(MediaType, uri))
      case Some(mediaType) =>
        match Capture(uri, Marker, ',')
        case None => Failure(TypeError(MediaTypeRaw, uri))
        case Some(mediaTypeRaw) =>
          Success(Entry(size, formatBytes(size), mediaType, mediaTypeRaw,
                        if Contains(uri, "data:image") then uri else ""))
  }

  /** Which capture throws, that nothing else throws (when all three
      captures match, the entry is built from them), and what a built entry
      holds: the UTF-8 size of the URI string (which has no `)` and no line
      break), a `type` without `/`, a `typeRaw` without `,`, and the URI
      string as display value exactly for `data:image` URIs. */
  lemma MakeEntryOutcome(value: string, formatBytes: nat -> string)
    ensures var r := MakeEntry(value, formatBytes);
            UriString(value).None? ==> r == Failure(TypeError(UrlArgument, value))
    ensures var r := MakeEntry(value, formatBytes);
            UriString(value).Some? && Capture(UriString(value).value, Marker, '/').None?
            ==> r == Failure(TypeError(MediaType, UriString(value).value))
    ensures var r := MakeEntry(value, formatBytes);
            UriString(value).Some? && Capture(UriString(value).value, Marker, '/').Some?
            && Capture(UriString(value).value, Marker, ',').None?
            ==> r == Failure(TypeError(MediaTypeRaw, UriString(value).value))
    ensures var r := MakeEntry(value, formatBytes);
            UriString(value).Some? && Capture(UriString(value).value, Marker, '/').Some?
            && Capture(UriString(value).value, Marker, ',').Some?
            ==> && r.Success?
                && r.value.mediaType == Capture(UriString(value).value, Marker, '/').value
                && r.value.mediaTypeRaw == Capture(UriString(value).value, Marker, ',').value
    ensures var r := MakeEntry(value, formatBytes);
            r.Success? ==>
              && UriString(value).Some?
              && r.value.sizeRaw == ByteLength(UriString(value).value)
              && ')' !in UriString(value).value && OneLine(UriString(value).value)
              && '/' !in r.value.mediaType && ',' !in r.value.mediaTypeRaw
              && r.value.displayValue ==
                   if Contains(UriString(value).value, "data:image") then UriString(value).value else ""
  {
  }

  /** `type` and `typeRaw` are read after the same `data:` marker, the first
      one in the URI string, so one of them is a prefix of the other. */
  lemma MediaTypesShareMarker(value: string, formatBytes: nat -> string)
    requires MakeEntry(value, formatBytes).Success?
    ensures var e := MakeEntry(value, formatBytes).value;
            e.mediaType <= e.mediaTypeRaw || e.mediaTypeRaw <= e.mediaType
  {
    CapturesShareStart(UriString(value).value, Marker, '/', ',');
  }

  /** The RFC 2397 URL `data:top/sub,payload`. */
  function DataUrl(top: string, sub: string, payload: string): string {
    Marker + top + "/" + sub + "," + payload
  }

  lemma {:induction false} OneLineConcat(a: string, b: string)
    requires OneLine(a) && OneLine(b)
    ensures OneLine(a + b)
  {
    forall m | 0 <= m < |a + b|
      ensures !IsLineTerminator((a + b)[m])
    {
      if m >= |a| {
        assert (a + b)[m] == b[m - |a|];
      }
    }
  }

  lemma UrlArgumentOfWrapped(pre: string, uri: string, rest: string)
    requires '(' !in pre && ')' !in uri && OneLine(uri)
    ensures UriString(pre + "(" + uri + ")" + rest) == Some(uri)
  {
    var value := pre + "(" + uri + ")" + rest;
    assert value == pre + "(" + uri + [')'] + rest;
    forall j | 0 <= j < |pre|
      ensures !LiteralAt(value, "(", j)
    {
      assert value[j] == pre[j];
    }
    CaptureOfBuilt(pre, "(", uri, ')', rest);
  }

  lemma MediaTypesOfDataUrl(top: string, sub: string, payload: string)
    requires '/' !in top && ',' !in top && ',' !in sub
    requires OneLine(top) && OneLine(sub)
    ensures Capture(DataUrl(top, sub, payload), Marker, '/') == Some(top)
    ensures Capture(DataUrl(top, sub, payload), Marker, ',') == Some(top + "/" + sub)
  {
    var uri := DataUrl(top, sub, payload);
    assert uri == [] + Marker + top + ['/'] + (sub + "," + payload);
    CaptureOfBuilt([], Marker, top, '/', sub + "," + payload);
    OneLineConcat(top, "/");
    OneLineConcat(top + "/", sub);
    assert ',' !in top + "/" + sub;
    assert uri == [] + Marker + (top + "/" + sub) + [','] + payload;
    CaptureOfBuilt([], Marker, top + "/" + sub, ',', payload);
  }

  lemma DataUrlOneLine(top: string, sub: string, payload: string)
    requires ')' !in top && ')' !in sub && ')' !in payload
    requires OneLine(top) && OneLine(sub) && OneLine(payload)
    ensures OneLine(DataUrl(top, sub, payload)) && ')' !in DataUrl(top, sub, payload)
  {
    assert OneLine(Marker) && OneLine("/") && OneLine(",");
    OneLineConcat(Marker, top);
    OneLineConcat(Marker + top, "/");
    OneLineConcat(Marker + top + "/", sub);
    OneLineConcat(Marker + top + "/" + sub, ",");
    OneLineConcat(Marker + top + "/" + sub + ",", payload);
  }

  /** A property value written as `pre(data:top/sub,payload)rest`, the shape of
      RFC 2397 section 3 with `top/sub` the media type, yields the entry with
      `type` = `top`, `typeRaw` = `top/sub` and the URI's UTF-8 length; the
      display value is kept when `top` starts with `image`. */
  lemma EntryOfDataUrl(pre: string, top: string, sub: string, payload: string, rest: string,
                       formatBytes: nat -> string)
    requires '(' !in pre
    requires '/' !in top && ',' !in top && ',' !in sub
    requires ')' !in top && ')' !in sub && ')' !in payload
    requires OneLine(top) && OneLine(sub) && OneLine(payload)
    ensures var uri := DataUrl(top, sub, payload);
            MakeEntry(pre + "(" + uri + ")" + rest, formatBytes)
            == Success(Entry(ByteLength(uri), formatBytes(ByteLength(uri)), top, top + "/" + sub,
                             if Contains(uri, "data:image") then uri else ""))
    ensures "image" <= top ==>
              var uri := DataUrl(top, sub, payload);
              MakeEntry(pre + "(" + uri + ")" + rest, formatBytes).value.displayValue == uri
  {
    var uri := DataUrl(top, sub, payload);
    var value := pre + "(" + uri + ")" + rest;
    DataUrlOneLine(top, sub, payload);
    UrlArgumentOfWrapped(pre, uri, rest);
    assert UriString(value) == Some(uri);
    MediaTypesOfDataUrl(top, sub, payload);
    if "image" <= top {
      DataUrlIsImage(top, sub, payload);
    }
  }

  /** A media type starting with `image` makes the URI a `data:image` one. */
  lemma DataUrlIsImage(top: string, sub: string, payload: string)
    requires "image" <= top
    ensures Contains(DataUrl(top, sub, payload), "data:image")
  {
    assert LiteralAt(DataUrl(top, sub, payload), "data:image", 0) by {
      assert DataUrl(top, sub, payload)[..10] == Marker + top[..5];
    }
  }

  /** A value that mentions `data:` without any `(`: the first `exec` finds
      nothing and indexing its null result throws. */
  lemma NoParenthesisThrows(value: string, formatBytes: nat -> string)
    requires '(' !in value
    ensures MakeEntry(value, formatBytes) == Failure(TypeError(UrlArgument, value))
  {
    assert forall j: nat :: LiteralAt(value, "(", j) ==> value[j] == '(';
    NoLiteralNoCapture(value, "(", ')');
  }

  /** A URI string `data:body` with no `/` after the marker (say `data:,text`,
      which RFC 2397 allows) makes the `type` pattern fail, and the source
      throws instead of recording the asset. */
  lemma DataUrlWithoutSlashThrows(pre: string, body: string, rest: string, formatBytes: nat -> string)
    requires '(' !in pre && ')' !in body && '/' !in body && OneLine(body)
    ensures MakeEntry(pre + "(" + (Marker + body) + ")" + rest, formatBytes)
            == Failure(TypeError(MediaType, Marker + body))
  {
    var uri := Marker + body;
    assert OneLine(Marker);
    OneLineConcat(Marker, body);
    assert ')' !in uri && '/' !in uri;
    UrlArgumentOfWrapped(pre, uri, rest);
    NoCloseNoCapture(uri, Marker, '/');
  }
}
