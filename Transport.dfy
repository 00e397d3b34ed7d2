/**
 * `WebSocketManager` as an object: the frames it writes to its socket and
 * the delegate calls it makes, following the source method by method. The
 * socket is the log of frames written to it; the delegate is a listener
 * that records every call it receives.
 */
module Transport {
  import opened Wrappers
  import opened Json
  import Base64
  import opened Collections
  import opened WebSocketCodec

  /** A `WebSocketManagerDelegate`, reduced to the calls it has received. */
  class Listener {
    var received: seq<Callback>

    constructor()
      ensures received == []
    {
      received := [];
    }

    method DidReceiveContent(content: WebSocketContent)
      modifies this
      ensures received == old(received) + [Callback.DidReceiveContent(content)]
    {
      received := received + [Callback.DidReceiveContent(content)];
    }

    method DidEncounterError(error: string)
      modifies this
      ensures received == old(received) + [Callback.DidEncounterError(error)]
    {
      received := received + [Callback.DidEncounterError(error)];
    }
  }

  class WebSocketManager {
    /** The platform JSON library the manager serialises with. */
    const json: JsonLibrary
    /** Every frame written to the socket, oldest first. */
    var written: seq<Frame>
    /** The weak `delegate`; null when nobody listens. */
    var delegate: Listener?

    constructor(json: JsonLibrary)
      ensures this.json == json && written == [] && delegate == null
    {
      this.json := json;
      written := [];
      delegate := null;
    }

    /** `sendMessage(_:)`: the text goes out as it is. */
    method SendMessage(text: string)
      modifies this
      ensures written == old(written) + [TextFrame(text)]
      ensures delegate == old(delegate)
    {
      written := written + [TextFrame(text)];
    }

    /** `sendImageMessage(_:)`: the raw bytes in a binary frame. */
    method SendImageMessage(data: Bytes)
      modifies this
      ensures written == old(written) + [BinaryFrame(data)]
      ensures delegate == old(delegate)
    {
      written := written + [BinaryFrame(data)];
    }

    /** `sendDocumentMessage(_:)`: the raw bytes in a binary frame. */
    method SendDocumentMessage(data: Bytes)
      modifies this
      ensures written == old(written) + [BinaryFrame(data)]
      ensures delegate == old(delegate)
    {
      written := written + [BinaryFrame(data)];
    }

    /** `sendTextAndImage(text:imageData:)`: one JSON text frame whose type
        follows from which of text and images are present. */
    method SendTextAndImage(text: string, imageData: seq<Bytes>)
      modifies this
      ensures written == old(written) + [TextFrame(json.printObject(MessageObject(text, imageData)))]
      ensures delegate == old(delegate)
    {
      var base64Strings := Base64Strings(imageData);
      var messageDict: map<string, Json> := map[];
      if imageData != [] && text != [] {
        messageDict := map["type" := JString("image+text"), "text" := JString(text),
                           "images" := JArray(StringsAsJson(base64Strings))];
      } else if imageData != [] {
        messageDict := map["type" := JString("image"), "images" := JArray(StringsAsJson(base64Strings))];
      } else {
        messageDict := map["type" := JString("text"), "text" := JString(text)];
      }
      written := written + [TextFrame(json.printObject(messageDict))];
    }

    /** `send(content:)`. */
    method Send(content: WebSocketContent)
      modifies this
      ensures written == old(written) + [ContentFrame(json, content)]
      ensures delegate == old(delegate)
    {
      match content
      case Text(text) =>
        SendMessage(text);
      case Image(imagesData) =>
        SendTextAndImage("", OrEmpty(imagesData));
      case ImageWithText(text, imagesData) =>
        SendTextAndImage(text, OrEmpty(imagesData));
      case Document(data, fileName, mimeType) =>
        var messageDict := DocumentObject(data, fileName, mimeType);
        written := written + [TextFrame(json.printObject(messageDict))];
    }

    /** `didReceive(event:client:)`: the delegate, if any, receives exactly
        the calls `Callbacks` lists for the event, in order. */
    method DidReceive(event: SocketEvent)
      modifies delegate
      ensures delegate != null ==> delegate.received == old(delegate.received) + Callbacks(json, event)
    {
      match event
      case Disconnected(reason, code) =>
        if delegate != null {
          delegate.DidEncounterError(DisconnectMessage(reason, code));
        }
      case TextMessage(message) =>
        ReceiveText(message);
      case Error(description) =>
        if delegate != null {
          var text := match description case Some(d) => d case None => "Unknown error";
          delegate.DidEncounterError(text);
        }
      case _ =>
    }

    /** The `.text` branch of `didReceive`. */
    method ReceiveText(message: string)
      modifies delegate
      ensures delegate != null ==> delegate.received == old(delegate.received) + TextDeliveries(json, message)
    {
      match json.parse(message) {
        case Some(JObject(dict)) =>
          match StringField(dict, "type") {
            case Some(kind) =>
              if kind == "text" {
                match StringField(dict, "text") {
                  case Some(text) =>
                    if delegate != null {
                      delegate.DidReceiveContent(Text(text));
                    }
                  case None =>
                }
              } else if kind == "image+text" {
                match (StringArrayField(dict, "images"), StringField(dict, "text")) {
                  case (Some(base64Strings), Some(text)) =>
                    ReceiveImages(base64Strings, Some(text));
                  case _ =>
                }
              } else if kind == "image" {
                match StringArrayField(dict, "images") {
                  case Some(base64Strings) =>
                    ReceiveImages(base64Strings, None);
                  case None =>
                }
              } else if kind == "document" {
                match (StringField(dict, "fileName"), StringField(dict, "mimeType"), StringField(dict, "data")) {
                  case (Some(fileName), Some(mimeType), Some(base64String)) =>
                    var cleanBase64 := base64String[DataPrefixLength(base64String)..];
                    match Base64.Decode(cleanBase64) {
                      case Some(documentData) =>
                        if delegate != null {
                          delegate.DidReceiveContent(Document(documentData, fileName, mimeType));
                        }
                      case None =>
                    }
                  case _ =>
                }
              }
            case None =>
              if delegate != null {
                delegate.DidReceiveContent(Text(message));
              }
          }
        case _ =>
          if delegate != null {
            delegate.DidReceiveContent(Text(message));
          }
      }
    }

    /** The loop over `"images"`: each string that decodes is appended to
        `imagesData`, and the whole list so far is delivered. */
    method ReceiveImages(base64Strings: seq<string>, caption: Option<string>)
      modifies delegate
      ensures delegate != null ==>
        delegate.received == old(delegate.received) + ImageDeliveries(caption, DecodedImages(base64Strings))
    {
      var imagesData: seq<Bytes> := [];
      var i := 0;
      while i < |base64Strings|
        invariant 0 <= i <= |base64Strings|
        invariant imagesData == DecodedImages(base64Strings[..i])
        invariant delegate != null ==>
          delegate.received == old(delegate.received) + ImageDeliveries(caption, imagesData)
      {
        var base64String := base64Strings[i];
        var cleanBase64 := base64String[ImagePrefixLength(base64String)..];
        DecodedImagesStep(base64Strings, i);
        match Base64.Decode(cleanBase64) {
          case Some(imageData) =>
            ImageDeliveriesSnoc(caption, imagesData, imageData);
            imagesData := imagesData + [imageData];
            if delegate != null {
              delegate.DidReceiveContent(ImageContent(caption, imagesData));
            }
          case None =>
        }
        i := i + 1;
      }
      assert base64Strings[..i] == base64Strings;
    }
  }
}
