/**
 * The wire format the chat client speaks over its WebSocket: how
 * `WebSocketManager` turns outgoing content into frames, and how it turns
 * the events Starscream reports into delegate callbacks. Everything here is
 * a pure function of its inputs; the `Transport` module holds the manager
 * object that applies them.
 */
module WebSocketCodec {
  import opened Wrappers
  import opened Json
  import Base64
  import Text
  import opened Collections

  type Bytes = Base64.Bytes

  /** `WebSocketContent`: what the app sends and what the manager delivers. */
  datatype WebSocketContent =
    | Text(text: string)
    | Image(image: Option<seq<Bytes>>)
    | ImageWithText(text: string, image: Option<seq<Bytes>>)
    | Document(data: Bytes, fileName: string, mimeType: string)

  /** A frame written to the socket. */
  datatype Frame = TextFrame(text: string) | BinaryFrame(data: Bytes)

  /** Starscream's `WebSocketEvent`; `Error` carries the error's
      `localizedDescription`, if there is an error value. */
  datatype SocketEvent =
    | Connected(headers: map<string, string>)
    | Disconnected(reason: string, code: nat)
    | TextMessage(message: string)
    | BinaryMessage(data: Bytes)
    | Pong(pongData: Option<Bytes>)
    | Ping(pingData: Option<Bytes>)
    | Error(description: Option<string>)
    | ViabilityChanged(viable: bool)
    | ReconnectSuggested(suggested: bool)
    | Cancelled
    | PeerClosed

  /** A call to the `WebSocketManagerDelegate`. */
  datatype Callback = DidReceiveContent(content: WebSocketContent) | DidEncounterError(error: string)

  // ---------------------------------------------------------------------------
  // Outgoing frames
  // ---------------------------------------------------------------------------

  /** `imageData.map { $0.base64EncodedString() }`. */
  function Base64Strings(imageData: seq<Bytes>): (r: seq<string>)
    ensures |r| == |imageData|
    ensures forall i :: 0 <= i < |r| ==> r[i] == Base64.Encode(imageData[i])
  {
    seq(|imageData|, i requires 0 <= i < |imageData| => Base64.Encode(imageData[i]))
  }

  /** The dictionary `sendTextAndImage` serialises: its `"type"` says which of
      text and images are present, and only those are sent. */
  function MessageObject(text: string, imageData: seq<Bytes>): (d: map<string, Json>)
    ensures IsStringObject(d) && "type" in d && d.Keys <= {"type", "text", "images"}
    ensures d["type"] == JString("image+text") <==> imageData != [] && text != []
    ensures d["type"] == JString("image") <==> imageData != [] && text == []
    ensures d["type"] == JString("text") <==> imageData == []
    ensures "images" in d <==> imageData != []
    ensures "images" in d ==> d["images"] == JArray(StringsAsJson(Base64Strings(imageData)))
    ensures "text" in d <==> (text != [] || imageData == [])
    ensures "text" in d ==> d["text"] == JString(text)
  {
    var images := JArray(StringsAsJson(Base64Strings(imageData)));
    if imageData != [] && text != [] then
      map["type" := JString("image+text"), "text" := JString(text), "images" := images]
    else if imageData != [] then
      map["type" := JString("image"), "images" := images]
    else
      map["type" := JString("text"), "text" := JString(text)]
  }

  /** The dictionary `send(content:)` serialises for a document. */
  function DocumentObject(data: Bytes, fileName: string, mimeType: string): (d: map<string, Json>)
    ensures IsStringObject(d) && d.Keys == {"type", "fileName", "mimeType", "data"}
    ensures d["type"] == JString("document") && d["data"] == JString(Base64.Encode(data))
    ensures d["fileName"] == JString(fileName) && d["mimeType"] == JString(mimeType)
  {
    map["type" := JString("document"), "fileName" := JString(fileName),
        "mimeType" := JString(mimeType), "data" := JString(Base64.Encode(data))]
  }

  /** `imagesData ?? []`. */
  function OrEmpty(images: Option<seq<Bytes>>): (r: seq<Bytes>)
    ensures images.None? ==> r == []
    ensures images.Some? ==> r == images.value
  {
    match images
    case Some(list) => list
    case None => []
  }

  /** The frame `send(content:)` writes: plain text goes out verbatim, every
      other kind of content as a JSON object in a text frame. */
  function ContentFrame(lib: JsonLibrary, content: WebSocketContent): (f: Frame)
    ensures f.TextFrame?
    ensures content.Text? ==> f == TextFrame(content.text)
    ensures content.Image? ==> f.text == lib.printObject(MessageObject("", OrEmpty(content.image)))
    ensures content.ImageWithText? ==> f.text == lib.printObject(MessageObject(content.text, OrEmpty(content.image)))
    ensures content.Document? ==>
      f.text == lib.printObject(DocumentObject(content.data, content.fileName, content.mimeType))
  {
    match content
    case Text(t) => TextFrame(t)
    case Image(images) => TextFrame(lib.printObject(MessageObject("", OrEmpty(images))))
    case ImageWithText(t, images) => TextFrame(lib.printObject(MessageObject(t, OrEmpty(images))))
    case Document(data, fileName, mimeType) => TextFrame(lib.printObject(DocumentObject(data, fileName, mimeType)))
  }

  // ---------------------------------------------------------------------------
  // The prefixes removed before base 64 decoding
  // ---------------------------------------------------------------------------

  const ImageScheme: string := "data:image/"
  const Base64Marker: string := ";base64,"

  /** `\w` in the pattern, on ASCII. */
  predicate IsWordChar(c: char) {
    'a' <= c <= 'z' || 'A' <= c <= 'Z' || '0' <= c <= '9' || c == '_'
  }

  /** A match of `^data:image/\w+;base64,`. */
  predicate IsImagePrefix(p: string) {
    && |p| > |ImageScheme| + |Base64Marker|
    && p[..|ImageScheme|] == ImageScheme
    && p[|p| - |Base64Marker|..] == Base64Marker
    && forall i :: |ImageScheme| <= i < |p| - |Base64Marker| ==> IsWordChar(p[i])
  }

  /** The length of the run of word characters `s` starts with. */
  function WordRun(s: string): (n: nat)
    ensures n <= |s|
    ensures forall k :: 0 <= k < n ==> IsWordChar(s[k])
    ensures n < |s| ==> !IsWordChar(s[n])
    decreases |s|
  {
    if s != [] && IsWordChar(s[0]) then 1 + WordRun(s[1..]) else 0
  }

  /** The length of the text `replacingOccurrences(of: "^data:image/\\w+;base64,",
      with: "", options: .regularExpression)` removes: the one prefix of `s`
      that matches, or 0 when none does. */
  function ImagePrefixLength(s: string): (n: nat)
    ensures n <= |s|
    ensures n > 0 ==> IsImagePrefix(s[..n])
    ensures forall k :: 0 < k <= |s| && IsImagePrefix(s[..k]) ==> k == n
  {
    var h := |ImageScheme|;
    if |s| >= h && s[..h] == ImageScheme then
      var w := WordRun(s[h..]);
      var n := h + w + |Base64Marker|;
      if w > 0 && n <= |s| && s[h + w..n] == Base64Marker then
        ImagePrefixFound(s, w);
        n
      else
        ImagePrefixAbsent(s, w);
        0
    else
      0
  }

  lemma ImagePrefixFound(s: string, w: nat)
    requires |s| >= |ImageScheme| && s[..|ImageScheme|] == ImageScheme
    requires w == WordRun(s[|ImageScheme|..]) && w > 0
    requires |ImageScheme| + w + |Base64Marker| <= |s|
    requires s[|ImageScheme| + w..|ImageScheme| + w + |Base64Marker|] == Base64Marker
    ensures IsImagePrefix(s[..|ImageScheme| + w + |Base64Marker|])
    ensures forall k :: 0 < k <= |s| && IsImagePrefix(s[..k]) ==> k == |ImageScheme| + w + |Base64Marker|
  {
    var h := |ImageScheme|;
    var n := h + w + |Base64Marker|;
    var p := s[..n];
    assert p[..h] == ImageScheme;
    assert p[|p| - |Base64Marker|..] == Base64Marker;
    forall i | h <= i < |p| - |Base64Marker| ensures IsWordChar(p[i]) {
      assert p[i] == s[h..][i - h];
    }
    forall k | 0 < k <= |s| && IsImagePrefix(s[..k]) ensures k == n {
      MatchedWordRun(s, k, w);
    }
  }

  lemma ImagePrefixAbsent(s: string, w: nat)
    requires |s| >= |ImageScheme| && s[..|ImageScheme|] == ImageScheme
    requires w == WordRun(s[|ImageScheme|..])
    requires !(w > 0 && |ImageScheme| + w + |Base64Marker| <= |s|
               && s[|ImageScheme| + w..|ImageScheme| + w + |Base64Marker|] == Base64Marker)
    ensures forall k :: 0 < k <= |s| ==> !IsImagePrefix(s[..k])
  {
    forall k | 0 < k <= |s| && IsImagePrefix(s[..k]) ensures false {
      MatchedWordRun(s, k, w);
    }
  }

  /** Any match of the image prefix ends just after the word run. */
  lemma MatchedWordRun(s: string, k: nat, w: nat)
    requires 0 < k <= |s| && IsImagePrefix(s[..k])
    requires w == WordRun(s[|ImageScheme|..])
    ensures k == |ImageScheme| + w + |Base64Marker|
  {
    var h := |ImageScheme|;
    var p := s[..k];
    var e := k - |Base64Marker| - h;
    forall i | 0 <= i < e ensures IsWordChar(s[h..][i]) {
      assert s[h..][i] == p[h + i];
    }
    assert s[h..][e] == p[k - |Base64Marker|] == ';';
  }

  /** A line terminator, which `.` in a pattern does not match. */
  predicate IsLineTerminator(c: char) {
    '\n' <= c <= '\r' || c == '\U{0085}' || c == '\U{2028}' || c == '\U{2029}'
  }

  /** A match of `^data:.*;base64,`. */
  predicate IsDataPrefix(p: string) {
    && |p| >= 5 + |Base64Marker|
    && p[..5] == "data:"
    && p[|p| - |Base64Marker|..] == Base64Marker
    && forall i :: 0 <= i < |p| ==> !IsLineTerminator(p[i])
  }

  /** The longest prefix of `s[..k]` that matches the data prefix, or 0. */
  function LongestDataPrefix(s: string, k: nat): (n: nat)
    requires k <= |s|
    ensures n <= k
    ensures n > 0 ==> IsDataPrefix(s[..n])
    ensures forall j :: n < j <= k ==> !IsDataPrefix(s[..j])
    decreases k
  {
    if k == 0 then 0
    else if IsDataPrefix(s[..k]) then k
    else LongestDataPrefix(s, k - 1)
  }

  /** The length of the text `replacingOccurrences(of: "^data:.*;base64,",
      with: "", options: .regularExpression)` removes: since `.*` is greedy,
      the longest matching prefix, or 0 when none matches. */
  function DataPrefixLength(s: string): (n: nat)
    ensures n <= |s|
    ensures n > 0 ==> IsDataPrefix(s[..n])
    ensures forall j :: n < j <= |s| ==> !IsDataPrefix(s[..j])
  {
    LongestDataPrefix(s, |s|)
  }

  /** A string without a colon has neither prefix, so nothing is removed. */
  lemma NoColonNoPrefix(s: string)
    requires ':' !in s
    ensures ImagePrefixLength(s) == 0
    ensures DataPrefixLength(s) == 0
  {
    PrefixesStartWithData(s);
  }

  /** Both prefixes put a colon at index 4. */
  lemma PrefixesStartWithData(s: string)
    ensures ImagePrefixLength(s) > 0 ==> s[4] == ':'
    ensures DataPrefixLength(s) > 0 ==> s[4] == ':'
  {
    var n := ImagePrefixLength(s);
    if n > 0 {
      assert s[..n][..|ImageScheme|][4] == ':';
    }
    var m := DataPrefixLength(s);
    if m > 0 {
      assert s[..m][..5][4] == ':';
    }
  }

  /** `Data.base64EncodedString()` never produces a colon. */
  lemma EncodeHasNoColon(b: Bytes)
    ensures ':' !in Base64.Encode(b)
  {
    Base64.EncodeChars(b);
  }

  // ---------------------------------------------------------------------------
  // Incoming frames
  // ---------------------------------------------------------------------------

  /** `Data(base64Encoded:)` of one entry of `"images"`, after its data URL
      prefix is removed. */
  function DecodeImage(s: string): Option<Bytes> {
    Base64.Decode(s[ImagePrefixLength(s)..])
  }

  /** The images that decode, in order. */
  function DecodedImages(base64Strings: seq<string>): (r: seq<Bytes>)
    ensures |r| <= |base64Strings|
  {
    CompactMap(DecodeImage, base64Strings)
  }

  /** One more string adds its image, when it decodes, at the end. */
  lemma DecodedImagesStep(base64Strings: seq<string>, i: nat)
    requires i < |base64Strings|
    ensures DecodedImages(base64Strings[..i + 1])
      == DecodedImages(base64Strings[..i])
         + (match DecodeImage(base64Strings[i]) case Some(y) => [y] case None => [])
  {
    assert base64Strings[..i + 1] == base64Strings[..i] + [base64Strings[i]];
    CompactMapSnoc(DecodeImage, base64Strings[..i], base64Strings[i]);
  }

  /** Images with or without a caption. */
  function ImageContent(caption: Option<string>, images: seq<Bytes>): WebSocketContent {
    match caption
    case None => Image(Some(images))
    case Some(t) => ImageWithText(t, Some(images))
  }

  /** One delivery per decoded image, each carrying every image decoded so far. */
  function ImageDeliveries(caption: Option<string>, images: seq<Bytes>): (r: seq<Callback>)
    ensures |r| == |images|
    ensures forall k :: 0 <= k < |r| ==> r[k] == DidReceiveContent(ImageContent(caption, images[..k + 1]))
  {
    seq(|images|, k requires 0 <= k < |images| => DidReceiveContent(ImageContent(caption, images[..k + 1])))
  }

  /** One more decoded image adds one delivery with the whole list. */
  lemma ImageDeliveriesSnoc(caption: Option<string>, images: seq<Bytes>, image: Bytes)
    ensures ImageDeliveries(caption, images + [image])
            == ImageDeliveries(caption, images) + [DidReceiveContent(ImageContent(caption, images + [image]))]
  {
    var l := ImageDeliveries(caption, images + [image]);
    var r := ImageDeliveries(caption, images) + [DidReceiveContent(ImageContent(caption, images + [image]))];
    forall k | 0 <= k < |l| ensures l[k] == r[k] {
      if k < |images| {
        assert (images + [image])[..k + 1] == images[..k + 1];
      } else {
        assert (images + [image])[..k + 1] == images + [image];
      }
    }
  }

  /** The delivery for a document entry: none when `data` does not decode. */
  function DocumentDeliveries(data: string, fileName: string, mimeType: string): (r: seq<Callback>)
    ensures |r| <= 1
    ensures r != [] <==> Base64.Decode(data[DataPrefixLength(data)..]).Some?
    ensures r != [] ==>
      r == [DidReceiveContent(Document(Base64.Decode(data[DataPrefixLength(data)..]).value, fileName, mimeType))]
  {
    match Base64.Decode(data[DataPrefixLength(data)..])
    case Some(bytes) => [DidReceiveContent(Document(bytes, fileName, mimeType))]
    case None => []
  }

  /** The four values of `"type"` the client understands. */
  const KnownTypes: set<string> := {"text", "image", "image+text", "document"}

  /** `fileName`, `mimeType` and `data` are all strings. */
  predicate HasDocumentFields(dict: map<string, Json>) {
    && "fileName" in dict && dict["fileName"].JString?
    && "mimeType" in dict && dict["mimeType"].JString?
    && "data" in dict && dict["data"].JString?
  }

  /** The deliveries for an object whose `"type"` is `kind`; a missing or
      mistyped field, and an unknown type, deliver nothing. */
  function TypedDeliveries(dict: map<string, Json>, kind: string): (r: seq<Callback>)
    ensures kind !in KnownTypes ==> r == []
    ensures kind == "text" ==>
      r == if "text" in dict && dict["text"].JString? then [DidReceiveContent(Text(dict["text"].str))] else []
    ensures kind == "image" && StringArrayField(dict, "images").None? ==> r == []
    ensures kind == "image" && StringArrayField(dict, "images").Some? ==>
      r == ImageDeliveries(None, DecodedImages(StringArrayField(dict, "images").value))
    ensures kind == "image+text" && (StringArrayField(dict, "images").None? || StringField(dict, "text").None?) ==>
      r == []
    ensures kind == "image+text" && StringArrayField(dict, "images").Some? && StringField(dict, "text").Some? ==>
      r == ImageDeliveries(Some(StringField(dict, "text").value), DecodedImages(StringArrayField(dict, "images").value))
    ensures kind == "document" && !HasDocumentFields(dict) ==> r == []
    ensures kind == "document" && HasDocumentFields(dict) ==>
      r == DocumentDeliveries(dict["data"].str, dict["fileName"].str, dict["mimeType"].str)
    ensures forall i :: 0 <= i < |r| ==> r[i].DidReceiveContent?
  {
    if kind == "text" then
      match StringField(dict, "text")
      case Some(t) => [DidReceiveContent(Text(t))]
      case None => []
    else if kind == "image+text" then
      match (StringArrayField(dict, "images"), StringField(dict, "text"))
      case (Some(strs), Some(t)) => ImageDeliveries(Some(t), DecodedImages(strs))
      case _ => []
    else if kind == "image" then
      match StringArrayField(dict, "images")
      case Some(strs) => ImageDeliveries(None, DecodedImages(strs))
      case None => []
    else if kind == "document" then
      match (StringField(dict, "fileName"), StringField(dict, "mimeType"), StringField(dict, "data"))
      case (Some(f), Some(m), Some(d)) => DocumentDeliveries(d, f, m)
      case _ => []
    else
      []
  }

  /** A text frame that parses as a JSON object with a string `"type"`. */
  predicate IsTypedObject(lib: JsonLibrary, message: string) {
    match lib.parse(message)
    case Some(JObject(dict)) => StringField(dict, "type").Some?
    case _ => false
  }

  /** The deliveries for a text frame: a typed object is decoded by its type,
      anything else is delivered as plain text. */
  function TextDeliveries(lib: JsonLibrary, message: string): (r: seq<Callback>)
    ensures !IsTypedObject(lib, message) ==> r == [DidReceiveContent(Text(message))]
    ensures IsTypedObject(lib, message) ==>
      var dict := lib.parse(message).value.fields;
      r == TypedDeliveries(dict, dict["type"].str)
  {
    match lib.parse(message)
    case Some(JObject(dict)) =>
      (match StringField(dict, "type")
       case Some(kind) => TypedDeliveries(dict, kind)
       case None => [DidReceiveContent(Text(message))])
    case _ => [DidReceiveContent(Text(message))]
  }

  /** The message `didEncounterError` receives on a disconnect. */
  function DisconnectMessage(reason: string, code: nat): string {
    "Disconnected: " + reason + " (code: " + Text.Decimal(code) + ")\n\n"
  }

  /** The delegate calls `didReceive(event:client:)` makes for one event. */
  function Callbacks(lib: JsonLibrary, event: SocketEvent): (r: seq<Callback>)
    ensures event.Disconnected? ==> r == [DidEncounterError(DisconnectMessage(event.reason, event.code))]
    ensures event.TextMessage? ==> r == TextDeliveries(lib, event.message)
    ensures event.Error? && event.description.Some? ==> r == [DidEncounterError(event.description.value)]
    ensures event.Error? && event.description.None? ==> r == [DidEncounterError("Unknown error")]
    ensures !(event.Disconnected? || event.TextMessage? || event.Error?) ==> r == []
  {
    match event
    case Disconnected(reason, code) => [DidEncounterError(DisconnectMessage(reason, code))]
    case TextMessage(message) => TextDeliveries(lib, message)
    case Error(description) =>
      (match description
       case Some(d) => [DidEncounterError(d)]
       case None => [DidEncounterError("Unknown error")])
    case _ => []
  }

  // ---------------------------------------------------------------------------
  // What an echo server hands back
  // ---------------------------------------------------------------------------

  /** The content exactly as the receiving side can reconstruct it: an empty
      or missing image list reads as text, and an empty caption as no caption. */
  function Normalized(c: WebSocketContent): WebSocketContent {
    match c
    case Image(images) =>
      if OrEmpty(images) == [] then Text("") else Image(Some(OrEmpty(images)))
    case ImageWithText(t, images) =>
      if OrEmpty(images) == [] then Text(t)
      else if t == [] then Image(Some(OrEmpty(images)))
      else ImageWithText(t, Some(OrEmpty(images)))
    case _ => c
  }

  /** The deliveries that bring `c` to the receiver: images one at a time,
      cumulatively, and anything else in one piece. */
  function Arrivals(c: WebSocketContent): seq<Callback> {
    match c
    case Image(Some(images)) => ImageDeliveries(None, images)
    case ImageWithText(t, Some(images)) => ImageDeliveries(Some(t), images)
    case _ => [DidReceiveContent(c)]
  }

  /** Content that already says what it is comes through normalisation as is. */
  lemma NormalizedKeeps(c: WebSocketContent)
    requires c.Image? ==> c.image.Some? && c.image.value != []
    requires c.ImageWithText? ==> c.text != [] && c.image.Some? && c.image.value != []
    ensures Normalized(c) == c
  {
  }

  lemma NormalizedIdempotent(c: WebSocketContent)
    ensures Normalized(Normalized(c)) == Normalized(c)
  {
  }

  /** The receiver always gets something, and the last delivery is the
      whole content. */
  lemma ArrivalsEndWithContent(c: WebSocketContent)
    ensures var r := Arrivals(Normalized(c));
      r != [] && r[|r| - 1] == DidReceiveContent(Normalized(c))
  {
    var n := Normalized(c);
    match n
    case Image(Some(images)) =>
      assert images[..|images|] == images;
    case ImageWithText(t, Some(images)) =>
      assert images[..|images|] == images;
    case _ =>
  }

  /** Every image in a frame that `Data.base64EncodedString()` produced
      decodes back to its bytes. */
  lemma DecodedImagesOfEncoded(images: seq<Bytes>)
    ensures DecodedImages(Base64Strings(images)) == images
  {
    var strs := Base64Strings(images);
    forall i | 0 <= i < |strs| ensures DecodeImage(strs[i]) == Some(images[i]) {
      EncodeHasNoColon(images[i]);
      NoColonNoPrefix(strs[i]);
      Base64.DecodeEncode(images[i]);
    }
    CompactMapTotal(DecodeImage, strs);
  }

  /** The object `sendTextAndImage` writes is decoded into the matching
      deliveries: cumulative images with or without the caption, or the
      text alone when there are no images. */
  lemma MessageObjectRoundTrip(lib: JsonLibrary, text: string, imageData: seq<Bytes>)
    requires PrintedObjectsParse(lib)
    ensures TextDeliveries(lib, lib.printObject(MessageObject(text, imageData)))
            == if imageData != [] && text != [] then ImageDeliveries(Some(text), imageData)
               else if imageData != [] then ImageDeliveries(None, imageData)
               else [DidReceiveContent(Text(text))]
  {
    var d := MessageObject(text, imageData);
    assert lib.parse(lib.printObject(d)) == Some(JObject(d));
    if imageData != [] {
      StringArrayFieldOf(d, "images", Base64Strings(imageData));
      DecodedImagesOfEncoded(imageData);
    }
  }

  /** The document object `send(content:)` writes is decoded into one
      delivery of the same document. */
  lemma DocumentObjectRoundTrip(lib: JsonLibrary, data: Bytes, fileName: string, mimeType: string)
    requires PrintedObjectsParse(lib)
    ensures TextDeliveries(lib, lib.printObject(DocumentObject(data, fileName, mimeType)))
            == [DidReceiveContent(Document(data, fileName, mimeType))]
  {
    var d := DocumentObject(data, fileName, mimeType);
    assert lib.parse(lib.printObject(d)) == Some(JObject(d));
    EncodeHasNoColon(data);
    NoColonNoPrefix(Base64.Encode(data));
    Base64.DecodeEncode(data);
  }

  /** Plain text that is not a typed JSON object comes back from an echo
      server as the same text, whatever the JSON library does. */
  lemma EchoText(lib: JsonLibrary, t: string)
    requires !IsTypedObject(lib, t)
    ensures Callbacks(lib, TextMessage(ContentFrame(lib, Text(t)).text)) == [DidReceiveContent(Text(t))]
  {
  }

  /** Sending content to an echo server gives it back: the frame
      `send(content:)` writes, received as a text event, delivers the
      normalised content, images cumulatively. Plain text that happens to
      be a typed JSON object is the one exception. */
  lemma EchoRoundTrip(lib: JsonLibrary, c: WebSocketContent)
    requires PrintedObjectsParse(lib)
    requires c.Text? ==> !IsTypedObject(lib, c.text)
    ensures Callbacks(lib, TextMessage(ContentFrame(lib, c).text)) == Arrivals(Normalized(c))
  {
    match c
    case Text(t) =>
    case Image(images) =>
      MessageObjectRoundTrip(lib, "", OrEmpty(images));
    case ImageWithText(t, images) =>
      MessageObjectRoundTrip(lib, t, OrEmpty(images));
    case Document(data, fileName, mimeType) =>
      DocumentObjectRoundTrip(lib, data, fileName, mimeType);
  }

  /** Decoding a frame never reports an error: malformed frames are dropped. */
  lemma TextDeliveriesAreContent(lib: JsonLibrary, message: string)
    ensures forall i :: 0 <= i < |TextDeliveries(lib, message)| ==> TextDeliveries(lib, message)[i].DidReceiveContent?
  {
  }

  /** Only a disconnect and an error reach `didEncounterError`, with exactly
      one call; every other event delivers content or nothing. */
  lemma ErrorsComeFromFailures(lib: JsonLibrary, e: SocketEvent)
    ensures e.Disconnected? || e.Error? ==> |Callbacks(lib, e)| == 1 && Callbacks(lib, e)[0].DidEncounterError?
    ensures !(e.Disconnected? || e.Error?) ==>
      forall i :: 0 <= i < |Callbacks(lib, e)| ==> Callbacks(lib, e)[i].DidReceiveContent?
    ensures !(e.TextMessage? || e.Disconnected? || e.Error?) ==> Callbacks(lib, e) == []
  {
    if e.TextMessage? {
      TextDeliveriesAreContent(lib, e.message);
    }
  }

  /** The disconnect message carries the close code in decimal. */
  lemma DisconnectMessageShowsCode(reason: string, code: nat)
    ensures var m := DisconnectMessage(reason, code);
      var tail := |Text.Decimal(code)| + 3;
      |m| >= 14 + |reason| + 8 + tail && m[..14] == "Disconnected: " && m[14..14 + |reason|] == reason
      && Text.DecimalValue(m[|m| - tail..|m| - 3]) == code
  {
    var m := DisconnectMessage(reason, code);
    var tail := |Text.Decimal(code)| + 3;
    assert m[|m| - tail..|m| - 3] == Text.Decimal(code);
    Text.DecimalRoundTrip(code);
  }
}
