/** `dataUrlToBlob`: splits a data URL into its MIME type and its base64 payload, decodes the
    payload with `atob`, and copies the decoded characters' codes into a byte array. The
    Telegram sender inlines the same steps. */
module DataUrl {
  import opened Wrappers
  import opened Seqs

  /** The `Blob` handed to the form: its `type` and its bytes. */
  datatype Blob = Blob(mimeType: string, bytes: seq<int>)

  datatype DecodeError =
    | NoPayload        // no ',': `split(",")[1]` is undefined, and `atob` rejects "undefined"
    | BadBase64        // `atob` rejected the payload
    | NoMimeSeparator  // no ':' before the first ',': `split(":")[1]` is undefined and `.split` on it throws

  /** Assignment into a `Uint8Array` (ToUint8): the value modulo 256. */
  function ToUint8(v: int): (b: int)
    ensures 0 <= b < 256
    ensures 0 <= v < 256 ==> b == v
    ensures (b - v) % 256 == 0
  {
    v % 256
  }

  /** The bytes `ia[i] = byteString.charCodeAt(i)` for every `i`. A `char` is a Unicode
      scalar value where `charCodeAt` reads a UTF-16 code unit; the two agree on the binary
      strings `atob` returns (`IsBinary`), which is the only input the program gives it. */
  function CharCodes(binary: string): (bytes: seq<int>)
    ensures |bytes| == |binary|
    ensures forall i :: 0 <= i < |binary| ==> bytes[i] == ToUint8(binary[i] as int)
  {
    seq(|binary|, i requires 0 <= i < |binary| => ToUint8(binary[i] as int))
  }

  /** The copy loop itself, over a zero-filled array of the decoded string's length. */
  method CopyCharCodes(byteString: string) returns (ia: seq<int>)
    ensures ia == CharCodes(byteString)
  {
    ia := seq(|byteString|, _ => 0);
    var i := 0;
    while i < |byteString|
      invariant 0 <= i <= |byteString|
      invariant |ia| == |byteString|
      invariant forall j :: 0 <= j < i ==> ia[j] == ToUint8(byteString[j] as int)
    {
      ia := ia[i := ToUint8(byteString[i] as int)];
      i := i + 1;
    }
  }

  /** A binary string: every character code fits in a byte, as `atob` guarantees. */
  predicate IsBinary(s: string) {
    forall i :: 0 <= i < |s| ==> s[i] as int < 256
  }

  /** The characters whose codes are the given bytes. */
  function FromBytes(bytes: seq<int>): (s: string)
    requires forall i :: 0 <= i < |bytes| ==> 0 <= bytes[i] < 256
    ensures |s| == |bytes|
  {
    seq(|bytes|, i requires 0 <= i < |bytes| => bytes[i] as char)
  }

  /** For a binary string the copy is lossless: reading the bytes back gives the string. */
  lemma CharCodesLossless(binary: string)
    requires IsBinary(binary)
    ensures FromBytes(CharCodes(binary)) == binary
  {
    var back := FromBytes(CharCodes(binary));
    forall i | 0 <= i < |binary|
      ensures back[i] == binary[i]
    {
      assert CharCodes(binary)[i] == binary[i] as int;
    }
  }

  /** `dataUrl.split(",")[1]`: there is one exactly when the URL has a comma, and it stops
      before the next comma. */
  function Payload(dataUrl: string): (r: Option<string>)
    ensures r.Some? <==> ',' in dataUrl
    ensures r.Some? ==> ',' !in r.value
  {
    SplitSeveralIff(dataUrl, ',');
    Field(dataUrl, ',', 1)
  }

  /** `dataUrl.split(",")[0].split(":")[1].split(";")[0]`, or `None` where it throws: it
      throws exactly when the header (the text before the first comma) has no colon, and the
      type it returns never runs into a ':', a ';' or the payload. */
  function MimeType(dataUrl: string): (r: Option<string>)
    ensures r.Some? <==> ':' in Split(dataUrl, ',')[0]
    ensures r.Some? ==> ':' !in r.value && ';' !in r.value && ',' !in r.value
  {
    var header := Split(dataUrl, ',')[0];
    SplitSeveralIff(header, ':');
    match Field(header, ':', 1)
    case None => None
    case Some(afterColon) =>
      var mime := Split(afterColon, ';')[0];
      SplitFieldChars(header, ':', 1);
      SplitFieldChars(afterColon, ';', 0);
      Some(mime)
  }

  /** `dataUrlToBlob(dataUrl)` with `atob` as a parameter (`None` where it throws). */
  function ToBlob(dataUrl: string, atob: string -> Option<string>): (r: Result<Blob, DecodeError>)
    ensures r.Ok? <==> Payload(dataUrl).Some? && atob(Payload(dataUrl).value).Some? && MimeType(dataUrl).Some?
    ensures r.Ok? ==> r.value.mimeType == MimeType(dataUrl).value
    ensures r.Ok? ==> r.value.bytes == CharCodes(atob(Payload(dataUrl).value).value)
    ensures r == Err(NoPayload) <==> ',' !in dataUrl
  {
    match Payload(dataUrl)
    case None => Err(NoPayload)
    case Some(payload) =>
      match atob(payload)
      case None => Err(BadBase64)
      case Some(byteString) =>
        match MimeType(dataUrl)
        case None => Err(NoMimeSeparator)
        case Some(mime) => Ok(Blob(mime, CharCodes(byteString)))
  }

  /** The payload is the text between the first comma and the next comma (or the end). */
  lemma PayloadIsSecondField(header: string, payload: string, tail: string)
    requires ',' !in header && ',' !in payload
    requires tail == [] || tail[0] == ','
    ensures Payload(header + [','] + payload + tail) == Some(payload)
  {
    var url := header + [','] + payload + tail;
    assert url == header + [','] + (payload + tail);
    SplitAtFirst(header, ',', payload + tail);
    if tail == [] {
      assert payload + tail == payload;
      SplitWithoutSep(payload, ',');
    } else {
      assert payload + tail == payload + [','] + tail[1..];
      SplitAtFirst(payload, ',', tail[1..]);
    }
  }

  /** The MIME type is the header text after its first ':' up to the next ';' or ':'. */
  lemma MimeTypeOfHeader(pre: string, mime: string, stop: char, rest: string, body: string)
    requires ':' !in pre && ':' !in mime && ';' !in mime
    requires stop == ';' || stop == ':'
    requires ',' !in pre && ',' !in mime && ',' !in rest && stop != ','
    requires body == [] || body[0] == ','
    ensures MimeType(pre + [':'] + mime + [stop] + rest + body) == Some(mime)
  {
    var header := pre + [':'] + mime + [stop] + rest;
    assert ',' !in header;
    var url := header + body;
    if body == [] {
      assert url == header;
      SplitWithoutSep(header, ',');
    } else {
      assert url == header + [','] + body[1..];
      SplitAtFirst(header, ',', body[1..]);
    }
    assert Split(url, ',')[0] == header;
    assert header == pre + [':'] + (mime + [stop] + rest);
    SplitAtFirst(pre, ':', mime + [stop] + rest);
    if stop == ':' {
      SplitAtFirst(mime, ':', rest);
      SplitWithoutSep(mime, ';');
    } else {
      SplitPrefix(mime + [stop], rest, ':');
      var after := Split(mime + [stop] + rest, ':')[0];
      assert after == mime + [';'] + Split(rest, ':')[0];
      SplitAtFirst(mime, ';', Split(rest, ':')[0]);
    }
  }

  /** A MIME type that runs to the end of the header: with no ';' or second ':' after the
      first ':', the whole rest of the header is the type (`"data:text/plain,abc"` gives
      `"text/plain"`). */
  lemma MimeTypeToEnd(pre: string, mime: string, body: string)
    requires ':' !in pre && ',' !in pre
    requires ':' !in mime && ';' !in mime && ',' !in mime
    requires body == [] || body[0] == ','
    ensures MimeType(pre + [':'] + mime + body) == Some(mime)
  {
    var header := pre + [':'] + mime;
    assert ',' !in header;
    var url := header + body;
    if body == [] {
      assert url == header;
      SplitWithoutSep(header, ',');
    } else {
      assert url == header + [','] + body[1..];
      SplitAtFirst(header, ',', body[1..]);
    }
    assert Split(url, ',')[0] == header;
    SplitAtFirst(pre, ':', mime);
    SplitWithoutSep(mime, ':');
    SplitWithoutSep(mime, ';');
  }

  /** A header without ':' fails, however good the payload. */
  lemma NoColonFails(header: string, payload: string, atob: string -> Option<string>)
    requires ':' !in header && ',' !in header && ',' !in payload
    requires atob(payload).Some?
    ensures ToBlob(header + [','] + payload, atob) == Err(NoMimeSeparator)
  {
    PayloadIsSecondField(header, payload, []);
    assert header + [','] + payload + [] == header + [','] + payload;
    SplitAtFirst(header, ',', payload);
    SplitWithoutSep(header, ':');
  }

  /** A canvas JPEG data URL `data:<mime>;base64,<payload>` yields a blob of type `<mime>`
      whose bytes are the codes of the decoded payload, one per character. */
  lemma CanvasDataUrl(mime: string, payload: string, atob: string -> Option<string>)
    requires ':' !in mime && ';' !in mime && ',' !in mime && ',' !in payload
    requires atob(payload).Some?
    ensures var r := ToBlob("data:" + mime + ";base64," + payload, atob);
            && r.Ok?
            && r.value.mimeType == mime
            && |r.value.bytes| == |atob(payload).value|
            && (IsBinary(atob(payload).value) ==> FromBytes(r.value.bytes) == atob(payload).value)
  {
    var url := "data:" + mime + ";base64," + payload;
    assert url == "data" + [':'] + mime + [';'] + "base64" + ([','] + payload);
    MimeTypeOfHeader("data", mime, ';', "base64", [','] + payload);
    assert url == ("data:" + mime + ";base64") + [','] + payload + [];
    PayloadIsSecondField("data:" + mime + ";base64", payload, []);
    if IsBinary(atob(payload).value) {
      CharCodesLossless(atob(payload).value);
    }
  }
}
