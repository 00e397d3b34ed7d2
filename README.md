# SimpleChat core, modelled in Dafny

SimpleChat is an iOS chat client. It talks to an echo server over a WebSocket.
This project models the core of the client:

- **The WebSocket layer.** `WebSocketManager` turns outgoing `WebSocketContent` into frames. A text is sent as is. Images, a text with images, and documents are sent as a JSON object whose images and document data are base64 strings. Back on the delegate, `didReceive(event:client:)` turns incoming frames into `didReceiveContent` or `didEncounterError` calls.
- **The message model.** `Message`, `ChatItem` and `Document`: how a message is hashed, how its images are decoded, how it is classified, and which fields it persists.
- **The chat screen** in both copies the repository keeps:
  - The newer `Scenes/…/ChatViewController` and the older `ChatViewControllerScene/ChatViewController`.
  - `updateSnapshot()` rebuilds the row list with one date header before every run of messages from the same calendar day.
  - Sending appends, rebuilds, writes a frame and saves.
  - Receiving appends a message from the other side.
  - Loading restores the saved chat and then saves again.
  - The input is limited to 100 characters.
- **The photo picker** `AttachMenuViewController`: its asset list, and a selection of at most five cells.
- **`UIColor(hex:)`** for `Int` and `String` arguments.

Modules:

| module | contents |
|---|---|
| `Wrappers` | `Option` |
| `Collections` | `compactMap`, and lemmas about it |
| `Base64` | an RFC 4648 section 4 encoder and a strict decoder, which together model `base64EncodedString()` and `Data(base64Encoded:)` |
| `Json` | JSON values, and the JSON text library as a parameter |
| `Text` | `trimmingCharacters(in: .whitespacesAndNewlines)`, `uppercased()`, removing every `#`, and decimal printing |
| `WebSocketCodec` | frame and callback computations, and the echo round trip |
| `Transport` | the `WebSocketManager` class with its written frames, and a `Listener` delegate class |
| `ChatModel` | `Message` and its persistence |
| `ChatTimeline` | the date-header timeline and its rebuilding loop, received and composed messages, and the input limit |
| `ChatScreen`, `LegacyChatScreen` | the two `ChatViewController` classes |
| `AttachMenu` | the photo picker |
| `HexColor` | `UIColor(hex:)` |

The main results:

- **Echo round trip** (`WebSocketCodec.EchoRoundTrip`). An echo server returns each frame the client sends. What the delegate then receives is exactly the callbacks the model predicts for that content:
  - the incremental image deliveries;
  - ending with the content itself, normalised where the wire format loses information.
  It assumes only that the JSON library parses back the dictionaries of strings and string arrays it prints; `Json.PrintedObjectsParseSatisfiable` proves that some library does. A plain text comes back unchanged whatever the library (`WebSocketCodec.EchoText`).
- **Base64** encoding and decoding are mutually inverse (`Base64.DecodeEncode`, `Base64.EncodeDecode`).
- **The timeline.** A row list is the rebuilt timeline of some list exactly when it is well dated, starts with a header, and carries the same messages (`ChatTimeline.TimelineCharacterized`). Rebuilding is therefore idempotent. Every controller method keeps its rows well dated.
- **Persistence.** A message restored from its stored form is the message with a fresh id (`ChatModel.PersistRestore`).
- **Selection.** A tap changes the selection by one cell and never takes it past five.
- **Hex colours.** `"#RRGGBB"` and `"#RRGGBBAA"` strings give back their bytes. A value with 16 hex digits overflows `Int` and traps.

## Model

| member | source | states |
|---|---|---|
| Base64.Encode | SimpleChat/NetworkLayer/WebSocketManager.swift:60 | the encoding of `n` bytes is `4 * ceil(n / 3)` characters long |
| Base64.Decode | SimpleChat/NetworkLayer/WebSocketManager.swift:155 | a string whose length is not a multiple of four is rejected, and an accepted string of `4q` characters gives between `3q - 2` and `3q` bytes |
| Base64.DecodeEncode | SimpleChat/NetworkLayer/WebSocketManager.swift:155 | decoding the base64 string of any bytes gives those bytes back |
| Base64.EncodeDecode | SimpleChat/NetworkLayer/WebSocketManager.swift:155 | every string the decoder accepts is the canonical encoding of what it decodes to, so the decoder accepts no other strings |
| Base64.EncodeChars | SimpleChat/NetworkLayer/WebSocketManager.swift:60 | every character of an encoding is from the base64 alphabet or `=` |
| Base64.DigitValueOfChar | SimpleChat/NetworkLayer/WebSocketManager.swift:155 | the decoder's digit table inverts the encoder's alphabet |
| Collections.CompactMapTotal | SimpleChat/Components/ChatItem.swift:37 | `compactMap` with a transform that never fails keeps every element, in order |
| Collections.CompactMapConcat | SimpleChat/NetworkLayer/WebSocketManager.swift:147-162 | `compactMap` over a concatenation is the concatenation of the two `compactMap`s |
| Json.StringField | SimpleChat/NetworkLayer/WebSocketManager.swift:131 | `dict[key] as? String` succeeds exactly when the value under the key is a JSON string, and gives that string |
| Json.StringArrayField | SimpleChat/NetworkLayer/WebSocketManager.swift:142 | `dict[key] as? [String]` succeeds exactly when the value is an array of strings, and gives those strings |
| Json.StringArrayFieldOf | SimpleChat/NetworkLayer/WebSocketManager.swift:165 | an array built from strings reads back as the same strings |
| Json.PrintedObjectsParseSatisfiable | SimpleChat/NetworkLayer/WebSocketManager.swift:83-85 | some JSON library prints every dictionary of strings and string arrays so that it parses back to the same dictionary, so the hypothesis of the round-trip lemmas can be met |
| Text.Trim | SimpleChat/ChatViewControllerScene/ChatViewController.swift:134 | the result is the input with its leading and trailing whitespace and newlines removed, and neither starts nor ends with one |
| Text.TrimEmpty | SimpleChat/ChatViewControllerScene/ChatViewController.swift:134-135 | trimming gives the empty text exactly when every character is whitespace or a newline |
| Text.TrimUntouched | SimpleChat/Resource/Tools/Extensions/Ext+UIColor.swift:61 | a text with no blank at either end is unchanged by trimming |
| Text.RemoveAll | SimpleChat/Resource/Tools/Extensions/Ext+UIColor.swift:62 | the removed character no longer occurs, and every other character occurs exactly as many times as before |
| Text.RemoveAllConcat | SimpleChat/Resource/Tools/Extensions/Ext+UIColor.swift:62 | removing a character from two joined texts is removing it from each, so the kept characters stay in order |
| Text.RemoveAllAround | SimpleChat/Resource/Tools/Extensions/Ext+UIColor.swift:62 | an occurrence of the character vanishes and the texts on either side are joined |
| Text.RemoveAllAbsent | SimpleChat/Resource/Tools/Extensions/Ext+UIColor.swift:62 | a text without the character is unchanged |
| Text.Uppercased | SimpleChat/Resource/Tools/Extensions/Ext+UIColor.swift:61 | the result has the input's length, and each character is the upper-case form of the input's character at the same place |
| Text.Decimal | SimpleChat/NetworkLayer/WebSocketManager.swift:126 | a code prints as a non-empty run of decimal digits with no leading zero unless it is 0 |
| Text.DecimalRoundTrip | SimpleChat/NetworkLayer/WebSocketManager.swift:126 | reading the printed digits back gives the code |
| Text.DecimalInjective | SimpleChat/NetworkLayer/WebSocketManager.swift:126 | different codes print differently |
| WebSocketCodec.MessageObject | SimpleChat/NetworkLayer/WebSocketManager.swift:59-82 | the object has only `type`, `text` and `images`; `type` is `"image+text"` exactly with images and a non-empty text, `"image"` exactly with images and an empty text, `"text"` exactly without images; `images` is present exactly with images and holds their base64 strings; `text` is present exactly when the text is non-empty or there are no images, and holds the text |
| WebSocketCodec.DocumentObject | SimpleChat/NetworkLayer/WebSocketManager.swift:103-110 | the document object has exactly `type`, `fileName`, `mimeType` and `data`: the type `"document"`, the name, the MIME type and the base64 string of the data |
| WebSocketCodec.OrEmpty | SimpleChat/NetworkLayer/WebSocketManager.swift:95 | a missing image list reads as no images, a present one as itself |
| WebSocketCodec.ContentFrame | SimpleChat/NetworkLayer/WebSocketManager.swift:89-117 | every content goes out as a text frame: a text verbatim, images (a missing list as none) and a text with images as the printed `MessageObject`, a document as the printed `DocumentObject` |
| WebSocketCodec.ImagePrefixLength | SimpleChat/NetworkLayer/WebSocketManager.swift:150-153 | the length removed is that of the only match of `^data:image/\w+;base64,` at the start, or 0 when nothing matches |
| WebSocketCodec.DataPrefixLength | SimpleChat/NetworkLayer/WebSocketManager.swift:193-194 | the length removed is that of the longest match of `^data:.*;base64,` with `.` not crossing a line terminator, or 0 when nothing matches |
| WebSocketCodec.NoColonNoPrefix | SimpleChat/NetworkLayer/WebSocketManager.swift:150-153 | a string without `:` (every base64 string) has no prefix removed by either pattern |
| WebSocketCodec.EncodeHasNoColon | SimpleChat/NetworkLayer/WebSocketManager.swift:60 | no base64 string contains `:` |
| WebSocketCodec.ImageDeliveries | SimpleChat/NetworkLayer/WebSocketManager.swift:147-162 | one delivery per decodable image, each carrying all the images decoded so far |
| WebSocketCodec.ImageDeliveriesSnoc | SimpleChat/NetworkLayer/WebSocketManager.swift:155-157 | decoding one more image adds exactly one delivery, with the longer list |
| WebSocketCodec.DocumentDeliveries | SimpleChat/NetworkLayer/WebSocketManager.swift:193-199 | a document is delivered exactly when its data decodes after the prefix is removed, once, with the decoded bytes, the name and the MIME type |
| WebSocketCodec.TypedDeliveries | SimpleChat/NetworkLayer/WebSocketManager.swift:133-204 | `"text"` with a string `text` delivers that text and without one nothing; `"image"` and `"image+text"` deliver the cumulative decoded images (with the caption for `"image+text"`) when `images` is an array of strings and, for `"image+text"`, `text` is a string, and nothing otherwise; `"document"` delivers `DocumentDeliveries` when `fileName`, `mimeType` and `data` are all strings and nothing otherwise; any other type delivers nothing; nothing is ever an error |
| WebSocketCodec.TextDeliveries | SimpleChat/NetworkLayer/WebSocketManager.swift:128-207 | a text frame that is not a JSON object with a string `type` is delivered as that text; one that is, is decoded by `TypedDeliveries` on its `type` |
| WebSocketCodec.TextDeliveriesAreContent | SimpleChat/NetworkLayer/WebSocketManager.swift:128-207 | a text frame never produces an error callback |
| WebSocketCodec.ErrorsComeFromFailures | SimpleChat/NetworkLayer/WebSocketManager.swift:121-215 | only `disconnected` and `error` events produce an error callback, and they produce exactly one; every other event produces content callbacks or nothing |
| WebSocketCodec.Callbacks | SimpleChat/NetworkLayer/WebSocketManager.swift:121-215 | a disconnect gives one error with the disconnect message, an error event one error with its description or `"Unknown error"`, a text frame its `TextDeliveries`, and every other event nothing |
| WebSocketCodec.DisconnectMessageShowsCode | SimpleChat/NetworkLayer/WebSocketManager.swift:126 | the disconnect message carries the close code in decimal, and the code can be read back from it |
| WebSocketCodec.DecodedImagesOfEncoded | SimpleChat/NetworkLayer/WebSocketManager.swift:60 | every base64 string the client sends decodes back to its image, after the prefix removal |
| WebSocketCodec.MessageObjectRoundTrip | SimpleChat/NetworkLayer/WebSocketManager.swift:59-87 | given a library that parses back the dictionaries of strings it prints, a sent text-and-images object is read back as a `"text"`, `"image"` or `"image+text"` message with the same text and images |
| WebSocketCodec.DocumentObjectRoundTrip | SimpleChat/NetworkLayer/WebSocketManager.swift:102-115 | given such a library, a sent document object is read back as the same document |
| WebSocketCodec.NormalizedIdempotent | SimpleChat/NetworkLayer/WebSocketManager.swift:89-117 | normalising content for the wire a second time changes nothing |
| WebSocketCodec.NormalizedKeeps | SimpleChat/NetworkLayer/WebSocketManager.swift:89-117 | text and documents survive the wire unchanged, and so do images with a non-empty text |
| WebSocketCodec.ArrivalsEndWithContent | SimpleChat/NetworkLayer/WebSocketManager.swift:141-184 | an echoed content always arrives, and its last delivery is the normalised content |
| WebSocketCodec.EchoRoundTrip | SimpleChat/NetworkLayer/WebSocketManager.swift:89-207 | given such a library, for every content (a text that reads as a typed JSON object excepted), the callbacks for the echoed frame are exactly the predicted arrivals |
| WebSocketCodec.EchoText | SimpleChat/NetworkLayer/WebSocketManager.swift:91-92 | whatever the library, a plain text that does not read as a typed JSON object comes back as the same text |
| Transport.Listener.DidReceiveContent | SimpleChat/NetworkLayer/WebSocketManager.swift:136 | the delegate records the content it was given |
| Transport.Listener.DidEncounterError | SimpleChat/NetworkLayer/WebSocketManager.swift:210 | the delegate records the error it was given |
| Transport.WebSocketManager.SendMessage | SimpleChat/NetworkLayer/WebSocketManager.swift:47-49 | exactly one text frame with the text is written |
| Transport.WebSocketManager.SendImageMessage | SimpleChat/NetworkLayer/WebSocketManager.swift:51-53 | exactly one binary frame with the data is written |
| Transport.WebSocketManager.SendDocumentMessage | SimpleChat/NetworkLayer/WebSocketManager.swift:55-57 | exactly one binary frame with the data is written |
| Transport.WebSocketManager.SendTextAndImage | SimpleChat/NetworkLayer/WebSocketManager.swift:59-87 | exactly one frame is written: the printed object, with its `type` chosen by which of text and images are present |
| Transport.WebSocketManager.Send | SimpleChat/NetworkLayer/WebSocketManager.swift:89-117 | exactly one frame is written, the one `ContentFrame` gives for the content |
| Transport.WebSocketManager.DidReceive | SimpleChat/NetworkLayer/WebSocketManager.swift:121-215 | the delegate, if any, receives exactly the callbacks `Callbacks` gives for the event, in order; nothing is written |
| Transport.WebSocketManager.ReceiveText | SimpleChat/NetworkLayer/WebSocketManager.swift:128-207 | the delegate receives exactly the deliveries `TextDeliveries` gives for the text frame |
| Transport.WebSocketManager.ReceiveImages | SimpleChat/NetworkLayer/WebSocketManager.swift:147-162 | the loop delivers, after each image that decodes, all the images decoded so far |
| ChatModel.NewMessage | SimpleChat/Components/ChatItem.swift:23-29 | the message carries the given fields, and images and document default to none |
| ChatModel.HashAgreesWithEquality | SimpleChat/Components/ChatItem.swift:31-33 | equal messages hash alike, and two messages hash alike exactly when they have the same id |
| ChatModel.HashIgnoresContent | SimpleChat/Components/ChatItem.swift:15-33 | a message with the same id but other content hashes alike, yet is a different message unless every field agrees |
| ChatModel.Images | SimpleChat/Components/ChatItem.swift:36-38 | the images are present exactly when the image data is, and there are never more of them |
| ChatModel.ImagesWhenAllDecode | SimpleChat/Components/ChatItem.swift:37 | when every datum decodes, the images are the decoded data, in order |
| ChatModel.KindsPartition | SimpleChat/Components/ChatItem.swift:47-58 | the three kinds exclude one another, and a message has a kind exactly when it has text or image data |
| ChatModel.StoredKeys | SimpleChat/Components/ChatItem.swift:41-45 | the stored keys are coding keys; the timestamp and the sender are always stored, the id never is, and the text, the image data and the document are stored exactly when present |
| ChatModel.Persist | SimpleChat/Components/ChatItem.swift:41-45 | the stored form holds the text, timestamp, sender, image data and document of the message |
| ChatModel.Restore | SimpleChat/Components/ChatItem.swift:15-45 | the restored message has the stored fields and the fresh id |
| ChatModel.PersistRestore | SimpleChat/Components/ChatItem.swift:15-45 | a message restored from its stored form is that message with a fresh id, and storing it again gives the same form |
| ChatModel.PersistAll | SimpleChat/Scenes/ChatViewControllerScene/Controller/ChatViewController.swift:396-398 | the stored chat holds one record per message, in order |
| ChatModel.RestoreAll | SimpleChat/Scenes/ChatViewControllerScene/Controller/ChatViewController.swift:406 | the restored chat holds one message per record, in order, record `k` with the `k`th fresh id |
| ChatModel.PersistAllRestoreAll | SimpleChat/Scenes/ChatViewControllerScene/Controller/ChatViewController.swift:395-414 | saving and then loading gives back every message with a fresh id, and saving again gives the same records |
| ChatTimeline.Messages | SimpleChat/Scenes/ChatViewControllerScene/Controller/ChatViewController.swift:397 | dropping the headers never lengthens the list |
| ChatTimeline.MessagesConcat | SimpleChat/Scenes/ChatViewControllerScene/Controller/ChatViewController.swift:342-343 | dropping headers distributes over concatenation |
| ChatTimeline.RebuildTimeline | SimpleChat/Scenes/ChatViewControllerScene/Controller/ChatViewController.swift:339-355 | the loop's result is the timeline of its input |
| ChatTimeline.DatedWellDated | SimpleChat/Scenes/ChatViewControllerScene/Controller/ChatViewController.swift:339-355 | a rebuilt list is well dated, and starts with a header whenever its first day differs from the last one seen |
| ChatTimeline.DatedMessages | SimpleChat/Scenes/ChatViewControllerScene/Controller/ChatViewController.swift:342-353 | rebuilding keeps exactly the messages, in order |
| ChatTimeline.WellDatedIsDated | SimpleChat/Scenes/ChatViewControllerScene/Controller/ChatViewController.swift:339-355 | rebuilding a well-dated list gives the list back |
| ChatTimeline.TimelineCharacterized | SimpleChat/Scenes/ChatViewControllerScene/Controller/ChatViewController.swift:335-361 | a list is the timeline of some rows exactly when it is well dated, opens with a header, and has the same messages |
| ChatTimeline.TimelineIdempotent | SimpleChat/Scenes/ChatViewControllerScene/Controller/ChatViewController.swift:335-361 | rebuilding the timeline a second time changes nothing |
| ChatTimeline.TimelineAppend | SimpleChat/Scenes/ChatViewControllerScene/Controller/ChatViewController.swift:99-100 | after a message is appended and the list rebuilt, the messages are the old ones followed by the new one |
| ChatTimeline.WellDatedTail | SimpleChat/Scenes/ChatViewControllerScene/Controller/ChatViewController.swift:342-353 | a well-dated list stays well dated without its first row |
| ChatTimeline.ReceivedMessage | SimpleChat/Scenes/ChatViewControllerScene/Controller/ChatViewController.swift:161-191 | a received message is from the other side and stamped now; its text is the content's text for a text or a text with images and empty for images and documents; its image data is the content's images for images, none otherwise; its document is the content's document for a document, none otherwise |
| ChatTimeline.ReceivedKinds | SimpleChat/Scenes/ChatViewControllerScene/Controller/ChatViewController.swift:163-191 | a received message is never image-only; text and documents are text-only; images are text-and-image with the content's images when there is a list and text-only without one; images alone carry an empty text; a document keeps its data, name and type |
| ChatTimeline.ShouldChangeText | SimpleChat/Scenes/ChatViewControllerScene/Controller/ChatViewController.swift:146-150 | an edit is allowed exactly when the edited text has at most 100 characters |
| ChatTimeline.InputLimitKept | SimpleChat/Scenes/ChatViewControllerScene/Controller/ChatViewController.swift:146-150 | allowed edits keep a text within the limit, and a deletion is always allowed |
| ChatTimeline.MessageItems | SimpleChat/Scenes/ChatViewControllerScene/Controller/ChatViewController.swift:407 | wrapping messages as rows keeps exactly those messages |
| ChatTimeline.Composed | SimpleChat/Scenes/ChatViewControllerScene/Controller/ChatViewController.swift:66-71 | there is something to send exactly when the posted message has a text and image data and one of them is non-empty; the text is kept and no image is added |
| ChatTimeline.ComposedKeepsImages | SimpleChat/Scenes/ChatViewControllerScene/Controller/ChatViewController.swift:71 | when every image decodes and re-encodes, every image is sent |
| ChatTimeline.ComposedMessage | SimpleChat/Scenes/ChatViewControllerScene/Controller/ChatViewController.swift:73-78 | the composed message is from the user, with the composed text and images, and is text-and-image |
| ChatScreen.ChatViewController.constructor | SimpleChat/Scenes/ChatViewControllerScene/Controller/ChatViewController.swift:11-12 | the screen starts with no rows, the saved store, and a fresh manager that has written nothing |
| ChatScreen.ChatViewController.UpdateSnapshot | SimpleChat/Scenes/ChatViewControllerScene/Controller/ChatViewController.swift:335-361 | the rows become the timeline of the old rows and are well dated |
| ChatScreen.ChatViewController.SaveMessages | SimpleChat/Scenes/ChatViewControllerScene/Controller/ChatViewController.swift:395-401 | the store holds the records of the messages without their headers |
| ChatScreen.ChatViewController.LoadMessages | SimpleChat/Scenes/ChatViewControllerScene/Controller/ChatViewController.swift:403-414 | a decodable store replaces the rows with the timeline of its messages; otherwise the rows stay; either way the rows are saved |
| ChatScreen.ChatViewController.ViewDidLoad | SimpleChat/Scenes/ChatViewControllerScene/Controller/ChatViewController.swift:38-39 | loading and then rebuilding leaves the rows as loading gave them |
| ChatScreen.ChatViewController.PressToSendFileMessage | SimpleChat/Scenes/ChatViewControllerScene/Controller/ChatViewController.swift:56-63 | a posted message is appended, the rows rebuilt and saved; without one nothing changes |
| ChatScreen.ChatViewController.PressToSendMessage | SimpleChat/Scenes/ChatViewControllerScene/Controller/ChatViewController.swift:65-87 | with something to send, the composed message is appended, exactly one frame with its text and images is written, and the rows are saved; otherwise nothing changes |
| ChatScreen.ChatViewController.SendMessage | SimpleChat/Scenes/ChatViewControllerScene/Controller/ChatViewController.swift:89-104 | a non-empty text is appended as the user's message, sent as a `"text"` object and saved; an empty one changes nothing |
| ChatScreen.ChatViewController.DidReceiveContent | SimpleChat/Scenes/ChatViewControllerScene/Controller/ChatViewController.swift:157-195 | the received content is appended as a message from the other side and the rows rebuilt |
| LegacyChatScreen.ChatViewController.constructor | SimpleChat/ChatViewControllerScene/ChatViewController.swift:11-18 | the screen starts with no rows, an empty text view, the saved store, and a fresh manager that has written nothing |
| LegacyChatScreen.ChatViewController.UpdateSnapshot | SimpleChat/ChatViewControllerScene/ChatViewController.swift:350-376 | the rows become the timeline of the old rows and are well dated |
| LegacyChatScreen.ChatViewController.SaveMessages | SimpleChat/ChatViewControllerScene/ChatViewController.swift:420-426 | the store holds the records of the messages without their headers |
| LegacyChatScreen.ChatViewController.LoadMessages | SimpleChat/ChatViewControllerScene/ChatViewController.swift:428-439 | a decodable store replaces the rows with the timeline of its messages; otherwise the rows stay; either way the rows are saved |
| LegacyChatScreen.ChatViewController.ViewWillAppear | SimpleChat/ChatViewControllerScene/ChatViewController.swift:57-61 | loading and then rebuilding leaves the rows as loading gave them |
| LegacyChatScreen.ChatViewController.PressToSendFileMessage | SimpleChat/ChatViewControllerScene/ChatViewController.swift:63-71 | a posted message is appended, the rows rebuilt and saved; without one nothing changes |
| LegacyChatScreen.ChatViewController.PressToSendMessage | SimpleChat/ChatViewControllerScene/ChatViewController.swift:73-96 | with something to send, the composed message is appended, sent as one frame and saved, and the text view cleared; otherwise nothing changes |
| LegacyChatScreen.ChatViewController.SendMessage | SimpleChat/ChatViewControllerScene/ChatViewController.swift:133-151 | the trimmed text view text, when non-empty, is appended, sent as a `"text"` object and saved, and the text view cleared; a blank text view changes nothing |
| LegacyChatScreen.ChatViewController.DidReceiveContent | SimpleChat/ChatViewControllerScene/ChatViewController.swift:204-242 | the received content is appended as a message from the other side and the rows rebuilt |
| AttachMenu.Tap | SimpleChat/AttachMenuScene/AttachMenuViewController.swift:248-259 | a selected cell is deselected, an unselected one is selected while fewer than five are, and the limit is hit exactly when an unselected cell is tapped with five selected |
| AttachMenu.TapKeepsLimit | SimpleChat/AttachMenuScene/AttachMenuViewController.swift:252-258 | a tap never takes the selection past five |
| AttachMenu.TapChangesOneCell | SimpleChat/AttachMenuScene/AttachMenuViewController.swift:249-259 | a tap flips the tapped cell and no other |
| AttachMenu.TapTwice | SimpleChat/AttachMenuScene/AttachMenuViewController.swift:249-259 | tapping the same cell twice restores the selection |
| AttachMenu.AttachMenuViewController.constructor | SimpleChat/AttachMenuScene/AttachMenuViewController.swift:22-23 | no assets and no selection at first |
| AttachMenu.AttachMenuViewController.ToggleInputContainerView | SimpleChat/AttachMenuScene/AttachMenuViewController.swift:264-267 | the input bar shows whether anything is selected, and how many cells are |
| AttachMenu.AttachMenuViewController.DidSelectItemAt | SimpleChat/AttachMenuScene/AttachMenuViewController.swift:248-262 | the selection changes as `Tap` says and the bar is updated, or at the limit an alert is shown and nothing else changes; the selection stays within five |
| AttachMenu.AttachMenuViewController.LoadGalleryView | SimpleChat/AttachMenuScene/AttachMenuViewController.swift:68-85 | with full or limited access, the grid lists the fetched assets in order; otherwise nothing changes |
| AttachMenu.AttachMenuViewController.GetPhotosFromAlbum | SimpleChat/AttachMenuScene/AttachMenuViewController.swift:204-223 | the grid lists the album's assets, the selection is cleared and the input bar hidden |
| HexColor.ColorFromIntRgb | SimpleChat/Resource/Tools/Extensions/Ext+UIColor.swift:45-50 | a 24-bit value gives an opaque colour whose bytes pack back to the value |
| HexColor.ColorFromInt | SimpleChat/Resource/Tools/Extensions/Ext+UIColor.swift:37-52 | up to `0xffffff` the colour is opaque with the low byte as blue; above, the low byte is the alpha and the next one the blue |
| HexColor.ColorFromIntRgba | SimpleChat/Resource/Tools/Extensions/Ext+UIColor.swift:38-44 | a value above `0xffffff` gives a colour whose four bytes pack to the value's low 32 bits |
| HexColor.ColorFromIntNegative | SimpleChat/Resource/Tools/Extensions/Ext+UIColor.swift:37-52 | a negative value reads as its low 24 bits, opaque |
| HexColor.ZeroRedReadsAsRgb | SimpleChat/Resource/Tools/Extensions/Ext+UIColor.swift:38 | `0x00GGBBAA` is read as the opaque colour `GGBBAA`, not with alpha `AA` |
| HexColor.DigitsValue | SimpleChat/Resource/Tools/Extensions/Ext+UIColor.swift:64 | a string has a base-16 value exactly when every character is a hex digit; the empty string is worth 0 (`ParseUInt` is what rejects it) |
| HexColor.ParseUInt | SimpleChat/Resource/Tools/Extensions/Ext+UIColor.swift:64 | `UInt(_:radix: 16)` accepts only an optional sign followed by at least one hex digit, gives a value below 2^64, gives 0 at most for a `-` sign, and reads a plain digit string as its value |
| HexColor.Sanitized | SimpleChat/Resource/Tools/Extensions/Ext+UIColor.swift:61-62 | the sanitised string has no `#` and keeps every other character of the trimmed, upper-cased input, as many times as it occurs |
| HexColor.SanitizedSplit | SimpleChat/Resource/Tools/Extensions/Ext+UIColor.swift:62 | around a `#`, the sanitised string is what is left of the two sides, in order |
| HexColor.SanitizedNoHash | SimpleChat/Resource/Tools/Extensions/Ext+UIColor.swift:61-62 | with no `#`, the sanitised string is the trimmed, upper-cased input |
| HexColor.ColorFromString | SimpleChat/Resource/Tools/Extensions/Ext+UIColor.swift:60-67 | the conversion to `Int` traps exactly when the parsed value does not fit in 63 bits, and a string `UInt(_:radix:)` rejects (a bad character, a lone sign, a negative value, 2^64 or more) gives opaque black |
| HexColor.NotHexIsBlack | SimpleChat/Resource/Tools/Extensions/Ext+UIColor.swift:64-66 | a sanitised string with a character that is neither a hex digit nor a leading sign gives opaque black |
| HexColor.MinusOneIsBlack | SimpleChat/Resource/Tools/Extensions/Ext+UIColor.swift:64-66 | `"-1"` is rejected by `UInt(_:radix:)` and so gives opaque black |
| HexColor.BlankIsBlack | SimpleChat/Resource/Tools/Extensions/Ext+UIColor.swift:61-64 | a blank string gives opaque black |
| HexColor.HexByte | SimpleChat/Resource/Tools/Extensions/Ext+UIColor.swift:64 | a byte prints as two upper-case hex digits |
| HexColor.ColorFromHexRgb | SimpleChat/Resource/Tools/Extensions/Ext+UIColor.swift:60-67 | `"#RRGGBB"` gives the colour with those bytes, opaque |
| HexColor.ColorFromHexRgba | SimpleChat/Resource/Tools/Extensions/Ext+UIColor.swift:60-67 | `"#RRGGBBAA"` with a non-zero red gives the colour with those four bytes |
| HexColor.LongHexTraps | SimpleChat/Resource/Tools/Extensions/Ext+UIColor.swift:66 | `"#8000000000000000"` parses as a `UInt` but does not fit in an `Int`, so the initializer traps |

## Left out

- Socket setup, `connect()`, `disconnect()`, the URL and the request timeout (`WebSocketManager.swift:24-45`). These are Starscream I/O. The socket is modelled as the sequence of frames written.
- The `print` logging in `didReceive` and elsewhere: console output only.
- The `DispatchQueue.main.async` hand-offs and the `PHPhotoLibrary.requestAuthorization` callback. They are modelled as happening synchronously, in order.
- JSON text. `JSONSerialization` is a foreign library, so it is a parameter: a parse and a print function. The round-trip lemmas assume that a dictionary of strings and string arrays the library prints parses back to the same dictionary; `Json.PrintedObjectsParseSatisfiable` shows a library that meets this exists. Serialization failure (`try?` at `WebSocketManager.swift:83` and `:112`) is not modelled, since string-keyed objects of strings always serialise.
- UTF-8. `message.data(using: .utf8)` and `String(data:encoding: .utf8)` are taken to always succeed.
- `UIImage(data:)` and `pngData()` are parameters over an abstract image type.
- Persistence. `UserDefaults` is a per-controller `store` field. `JSONEncoder`/`JSONDecoder` are modelled by exact record conversion, with an explicit undecodable case. `Date` is an integer timestamp, `Calendar.current` a function parameter, and `Date()` and `UUID()` are parameters.
- `ChatViewController.DidReceiveContent` (both copies) and `ChatTimeline.ReceivedMessage`: the document branch reads `Date()` a second time, and the model stamps it with the same `now`.
- The user interface. Layout, the keyboard, scrolling, the date overlay, `handleTextChange`, `inputContainerView.prepare()`, the activity indicator, the `cellForItemAt` image request and `numberOfItemsInSection` are left out. So are the alert's wording, `didEncounterError`'s alert and reconnection in the controllers, and `NotificationCenter` registration. A posted notification is modelled as an optional `Message` parameter.
- The delegate wiring (`webSocketManager.delegate = self`). The manager's delegate is a `Listener` that records its callbacks. The controllers' `DidReceiveContent` is the delegate method taking content directly.
- `ChatTimeline.ShouldChangeText` counts characters. It does not model the difference between `NSString` UTF-16 ranges and grapheme-cluster `count`.
- `AttachMenuViewController` items left out:
  - `viewDidLoad` and its setup;
  - `setupSystemAlbumsMenu`, which is PhotoKit plus UI;
  - the camera, document and image pickers;
  - `closeTapped`, and the empty `sendMessage`;
  - `selectedImages`, which is never filled and is cleared in `viewDidDisappear`;
  - the unused `maxSelectionLimit`.
- The album title passed to `albumButtonSetting` is left out: it is UI.
- `UIColor(red:green:blue:alpha:)` divides by 255 in `CGFloat`. That floating point is not modelled: a colour is its four bytes.
- `Text.Uppercased`: only ASCII letters are upper-cased. Unicode case mappings that produce hex digits (`"ﬀ"` becoming `"FF"`) are not modelled.
- `WebSocketCodec.ImagePrefixLength`: `\w` is taken as ASCII letters, digits and `_`. ICU's `\w` also accepts other Unicode word characters.
- `Base64.Decode` rejects encodings whose unused pad bits are not zero. It is strict about padding and length, and ignores no characters. Foundation's decoder may accept some of these non-canonical strings.
- `Text.IsWhitespaceOrNewline` is a fixed set of Unicode space and line-break characters standing for `CharacterSet.whitespacesAndNewlines`.
