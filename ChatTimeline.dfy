/**
 * What both chat screens share: the day-header timeline `updateSnapshot`
 * rebuilds, the message a delivered `WebSocketContent` becomes, the
 * 100-character limit on the input field, and the stored chat.
 */
module ChatTimeline {
  import opened Wrappers
  import opened ChatModel
  import opened WebSocketCodec
  import Collections

  /** `dateComponents([.year, .month, .day], from:)`. */
  datatype DayComponents = DayComponents(year: int, month: int, day: int)

  /** `Calendar.current`, reduced to the day a moment falls on. */
  type Calendar = Timestamp -> DayComponents

  /** The messages of a list of rows, in order; day headers are dropped. */
  function Messages(items: seq<ChatItem>): (ms: seq<Message>)
    ensures |ms| <= |items|
    decreases |items|
  {
    if items == [] then []
    else (match items[0] case MessageItem(m) => [m] case Date(_) => []) + Messages(items[1..])
  }

  lemma {:induction false} MessagesConcat(a: seq<ChatItem>, b: seq<ChatItem>)
    ensures Messages(a + b) == Messages(a) + Messages(b)
    decreases |a|
  {
    if a == [] {
      assert a + b == b;
    } else {
      assert (a + b)[1..] == a[1..] + b;
      MessagesConcat(a[1..], b);
    }
  }

  /** Rows for `ms` when the last header shown was for day `last`: a header
      before each message whose day differs from the previous message's. */
  function Dated(ms: seq<Message>, last: Option<DayComponents>, cal: Calendar): seq<ChatItem>
    decreases |ms|
  {
    if ms == [] then []
    else
      var day := cal(ms[0].timestamp);
      (if Some(day) != last then [Date(ms[0].timestamp)] else [])
      + [MessageItem(ms[0])] + Dated(ms[1..], Some(day), cal)
  }

  /** The rows `updateSnapshot` rebuilds from `items`. */
  function Timeline(items: seq<ChatItem>, cal: Calendar): seq<ChatItem> {
    Dated(Messages(items), None, cal)
  }

  /** The loop of `updateSnapshot`: walk the rows, skip headers, and put a
      header in front of each message that starts a new day. */
  method RebuildTimeline(messages: seq<ChatItem>, cal: Calendar) returns (result: seq<ChatItem>)
    ensures result == Timeline(messages, cal)
  {
    result := [];
    var lastDateComponent: Option<DayComponents> := None;
    var i := 0;
    while i < |messages|
      invariant 0 <= i <= |messages|
      invariant result + Dated(Messages(messages[i..]), lastDateComponent, cal) == Timeline(messages, cal)
    {
      assert messages[i..] == [messages[i]] + messages[i + 1..];
      MessagesConcat([messages[i]], messages[i + 1..]);
      ghost var old_last := lastDateComponent;
      match messages[i] {
        case Date(_) =>
          assert Messages([messages[i]]) == [];
          assert Messages(messages[i..]) == Messages(messages[i + 1..]);
        case MessageItem(message) =>
          assert Messages([messages[i]]) == [message];
          var rest := Messages(messages[i + 1..]);
          assert Messages(messages[i..]) == [message] + rest;
          var components := cal(message.timestamp);
          assert ([message] + rest)[1..] == rest;
          var before := result;
          if Some(components) != lastDateComponent {
            lastDateComponent := Some(components);
            result := result + [Date(message.timestamp)];
          }
          result := result + [MessageItem(message)];
          assert result + Dated(rest, lastDateComponent, cal)
              == before + Dated([message] + rest, old_last, cal);
      }
      i := i + 1;
    }
  }

  // ---------------------------------------------------------------------------
  // What a rebuilt timeline looks like
  // ---------------------------------------------------------------------------

  /** Every header is followed by a message with the header's timestamp;
      adjacent messages fall on the same day; a header after a message
      marks a change of day. */
  predicate WellDated(r: seq<ChatItem>, cal: Calendar) {
    && (forall j :: 0 <= j < |r| && r[j].Date? ==>
          j + 1 < |r| && r[j + 1].MessageItem? && r[j + 1].message.timestamp == r[j].date)
    && (forall j :: 0 < j < |r| && r[j].MessageItem? && r[j - 1].MessageItem? ==>
          cal(r[j - 1].message.timestamp) == cal(r[j].message.timestamp))
    && (forall j :: 0 < j < |r| && r[j].Date? ==>
          r[j - 1].MessageItem? && cal(r[j - 1].message.timestamp) != cal(r[j].date))
  }

  /** How `r` joins on to a header for day `last`: a leading message belongs
      to that day, a leading header starts another. */
  predicate StartsAfter(r: seq<ChatItem>, last: Option<DayComponents>, cal: Calendar) {
    r != [] ==>
      (r[0].MessageItem? ==> last == Some(cal(r[0].message.timestamp)))
      && (r[0].Date? ==> last != Some(cal(r[0].date)))
  }

  /** A timeline for `last == None` opens with a header, if it is not empty. */
  lemma StartsAfterNone(r: seq<ChatItem>, cal: Calendar)
    requires StartsAfter(r, None, cal)
    ensures r != [] ==> r[0].Date?
  {
  }

  lemma ConsMessage(m: Message, r: seq<ChatItem>, cal: Calendar)
    requires WellDated(r, cal) && StartsAfter(r, Some(cal(m.timestamp)), cal)
    ensures WellDated([MessageItem(m)] + r, cal)
  {
    var s := [MessageItem(m)] + r;
    forall j | 0 < j < |s| ensures s[j] == r[j - 1] {
    }
  }

  lemma ConsDate(m: Message, r: seq<ChatItem>, cal: Calendar)
    requires r != [] && r[0] == MessageItem(m) && WellDated(r, cal)
    ensures WellDated([Date(m.timestamp)] + r, cal)
  {
    var s := [Date(m.timestamp)] + r;
    forall j | 0 < j < |s| ensures s[j] == r[j - 1] {
    }
  }

  /** Every timeline `Dated` builds is well dated and joins on to `last`. */
  lemma {:induction false} DatedWellDated(ms: seq<Message>, last: Option<DayComponents>, cal: Calendar)
    ensures WellDated(Dated(ms, last, cal), cal)
    ensures StartsAfter(Dated(ms, last, cal), last, cal)
    decreases |ms|
  {
    if ms != [] {
      var m := ms[0];
      var day := cal(m.timestamp);
      var rest := Dated(ms[1..], Some(day), cal);
      DatedWellDated(ms[1..], Some(day), cal);
      ConsMessage(m, rest, cal);
      if Some(day) != last {
        ConsDate(m, [MessageItem(m)] + rest, cal);
        assert Dated(ms, last, cal) == [Date(m.timestamp)] + ([MessageItem(m)] + rest);
      } else {
        assert Dated(ms, last, cal) == [MessageItem(m)] + rest;
      }
    }
  }

  /** `Dated` keeps the messages, in order, and adds only headers. */
  lemma {:induction false} DatedMessages(ms: seq<Message>, last: Option<DayComponents>, cal: Calendar)
    ensures Messages(Dated(ms, last, cal)) == ms
    decreases |ms|
  {
    if ms != [] {
      var day := cal(ms[0].timestamp);
      var head := (if Some(day) != last then [Date(ms[0].timestamp)] else []) + [MessageItem(ms[0])];
      DatedMessages(ms[1..], Some(day), cal);
      MessagesConcat(head, Dated(ms[1..], Some(day), cal));
      if Some(day) != last {
        MessagesConcat([Date(ms[0].timestamp)], [MessageItem(ms[0])]);
      }
      assert Messages([MessageItem(ms[0])]) == [ms[0]];
    }
  }

  lemma WellDatedTail(r: seq<ChatItem>, cal: Calendar)
    requires r != [] && WellDated(r, cal)
    ensures WellDated(r[1..], cal)
  {
    var t := r[1..];
    forall j | 0 <= j < |t| ensures t[j] == r[j + 1] {
    }
  }

  /** `Dated` on a list that starts with `m`: a header if the day changes,
      then `m`, then the rest against `m`'s day. */
  lemma DatedCons(m: Message, rest: seq<Message>, last: Option<DayComponents>, cal: Calendar)
    ensures Dated([m] + rest, last, cal)
      == (if Some(cal(m.timestamp)) != last then [Date(m.timestamp)] else [])
         + [MessageItem(m)] + Dated(rest, Some(cal(m.timestamp)), cal)
  {
    assert ([m] + rest)[1..] == rest;
  }

  /** A well-dated list that opens with a message continues well dated
      after it, joined on to its day. */
  lemma HeadMessageStep(r: seq<ChatItem>, m: Message, cal: Calendar)
    requires r != [] && r[0] == MessageItem(m) && WellDated(r, cal)
    ensures WellDated(r[1..], cal) && StartsAfter(r[1..], Some(cal(m.timestamp)), cal)
    ensures Messages(r) == [m] + Messages(r[1..])
    ensures r == [MessageItem(m)] + r[1..]
  {
    WellDatedTail(r, cal);
    assert r == [r[0]] + r[1..];
    MessagesConcat([r[0]], r[1..]);
    assert Messages([r[0]]) == [m];
  }

  /** A well-dated list that opens with a header for a new day continues
      with a message of that day, and then well dated after the message. */
  lemma HeadDateStep(r: seq<ChatItem>, last: Option<DayComponents>, cal: Calendar)
    requires r != [] && r[0].Date? && WellDated(r, cal) && StartsAfter(r, last, cal)
    ensures |r| >= 2 && r[1].MessageItem? && r[1].message.timestamp == r[0].date
    ensures last != Some(cal(r[0].date))
    ensures WellDated(r[2..], cal) && StartsAfter(r[2..], Some(cal(r[1].message.timestamp)), cal)
    ensures Messages(r) == [r[1].message] + Messages(r[2..])
    ensures r == [Date(r[1].message.timestamp)] + [MessageItem(r[1].message)] + r[2..]
  {
    WellDatedTail(r, cal);
    HeadMessageStep(r[1..], r[1].message, cal);
    assert r[1..][1..] == r[2..];
    assert r == [r[0]] + r[1..];
    MessagesConcat([r[0]], r[1..]);
    assert Messages([r[0]]) == [];
  }

  /** A well-dated timeline is what `Dated` builds from its messages. */
  lemma {:induction false} WellDatedIsDated(r: seq<ChatItem>, last: Option<DayComponents>, cal: Calendar)
    requires WellDated(r, cal) && StartsAfter(r, last, cal)
    ensures Dated(Messages(r), last, cal) == r
    decreases |r|
  {
    if r != [] {
      match r[0] {
        case MessageItem(m) =>
          HeadMessageStep(r, m, cal);
          WellDatedIsDated(r[1..], Some(cal(m.timestamp)), cal);
          DatedCons(m, Messages(r[1..]), last, cal);
        case Date(_) =>
          HeadDateStep(r, last, cal);
          var m := r[1].message;
          WellDatedIsDated(r[2..], Some(cal(m.timestamp)), cal);
          DatedCons(m, Messages(r[2..]), last, cal);
      }
    }
  }

  /** `updateSnapshot`'s rows are characterised by three facts: they are
      well dated, open with a header, and hold exactly the messages of the
      rows it started from, in order. */
  lemma TimelineCharacterized(items: seq<ChatItem>, r: seq<ChatItem>, cal: Calendar)
    ensures Timeline(items, cal) == r <==>
      WellDated(r, cal) && StartsAfter(r, None, cal) && Messages(r) == Messages(items)
  {
    DatedWellDated(Messages(items), None, cal);
    DatedMessages(Messages(items), None, cal);
    if WellDated(r, cal) && StartsAfter(r, None, cal) && Messages(r) == Messages(items) {
      WellDatedIsDated(r, None, cal);
    }
  }

  /** Rebuilding a rebuilt timeline changes nothing. */
  lemma TimelineIdempotent(items: seq<ChatItem>, cal: Calendar)
    ensures Timeline(Timeline(items, cal), cal) == Timeline(items, cal)
  {
    DatedWellDated(Messages(items), None, cal);
    WellDatedIsDated(Timeline(items, cal), None, cal);
  }

  /** Appending a message to the rows and rebuilding appends it to the
      messages. */
  lemma TimelineAppend(items: seq<ChatItem>, m: Message, cal: Calendar)
    ensures Messages(Timeline(items + [MessageItem(m)], cal)) == Messages(items) + [m]
  {
    MessagesConcat(items, [MessageItem(m)]);
    assert Messages([MessageItem(m)]) == [m];
    DatedMessages(Messages(items + [MessageItem(m)]), None, cal);
  }

  // ---------------------------------------------------------------------------
  // Delivered content, the input limit, the store
  // ---------------------------------------------------------------------------

  /** The message `didReceiveContent` appends for delivered content: never
      from the user, stamped `now`, and with empty rather than missing
      text for images and documents. */
  function ReceivedMessage(content: WebSocketContent, now: Timestamp, id: Uuid): (m: Message)
    ensures !m.isFromUser && m.timestamp == now && m.id == id
    ensures m.text == Some(if content.Text? || content.ImageWithText? then content.text else "")
    ensures m.imagesData == if content.Image? || content.ImageWithText? then content.image else None
    ensures m.documentData
      == if content.Document? then Some(ChatModel.Document(content.data, content.fileName, content.mimeType)) else None
  {
    match content
    case Text(text) => NewMessage(id, Some(text), now, false)
    case Image(image) => NewMessage(id, Some(""), now, false, image)
    case ImageWithText(text, image) => NewMessage(id, Some(text), now, false, image)
    case Document(data, fileName, mimeType) =>
      NewMessage(id, Some(""), now, false, None, Some(ChatModel.Document(data, fileName, mimeType)))
  }

  /** Delivered content is never shown as images only: received text and
      documents are text-only, received images carry an empty text. */
  lemma ReceivedKinds(content: WebSocketContent, now: Timestamp, id: Uuid)
    ensures !IsImageOnly(ReceivedMessage(content, now, id))
    ensures content.Text? || content.Document? ==> IsTextOnly(ReceivedMessage(content, now, id))
    ensures (content.Image? || content.ImageWithText?) && content.image.Some? ==>
      IsTextAndImage(ReceivedMessage(content, now, id))
            && ReceivedMessage(content, now, id).imagesData == content.image
    ensures (content.Image? || content.ImageWithText?) && content.image.None? ==>
      IsTextOnly(ReceivedMessage(content, now, id))
    ensures content.Image? || content.Document? ==> ReceivedMessage(content, now, id).text == Some("")
    ensures content.Document? ==>
      ReceivedMessage(content, now, id).documentData
        == Some(ChatModel.Document(content.data, content.fileName, content.mimeType))
  {
  }

  /** The longest text the input field accepts. */
  const MaxInputLength: nat := 100

  /** `textView(_:shouldChangeTextIn:replacementText:)`: the edit that
      replaces `length` characters at `location` is allowed when the
      resulting text is at most 100 characters long. */
  function ShouldChangeText(current: string, location: nat, length: nat, replacement: string): (allowed: bool)
    requires location + length <= |current|
    ensures allowed <==> |current| - length + |replacement| <= MaxInputLength
  {
    var newText := current[..location] + replacement + current[location + length..];
    |newText| <= MaxInputLength
  }

  /** Only allowed edits are applied, so a field within the limit stays
      within it, and deleting is always allowed there. */
  lemma InputLimitKept(current: string, location: nat, length: nat, replacement: string)
    requires location + length <= |current| && |current| <= MaxInputLength
    ensures ShouldChangeText(current, location, length, replacement) ==>
      |current[..location] + replacement + current[location + length..]| <= MaxInputLength
    ensures replacement == [] ==> ShouldChangeText(current, location, length, replacement)
  {
  }

  /** The `"chatMessages"` entry in `UserDefaults`: an encoded message
      list, or data the decoder rejects. */
  datatype StoredChat = Encoded(records: seq<StoredMessage>) | Undecodable

  /** The item list `decoded.map { .message($0) }`. */
  function MessageItems(ms: seq<Message>): (items: seq<ChatItem>)
    ensures Messages(items) == ms
    ensures |items| == |ms|
    decreases |ms|
  {
    if ms == [] then [] else [MessageItem(ms[0])] + MessageItems(ms[1..])
  }

  /** What `pressToSendMessage` sends for the message posted with the
      notification: its text and the PNG data of the images it decodes to. */
  datatype Composition = Composition(text: string, imagesData: seq<Bytes>)

  /** The composition `pressToSendMessage` acts on, or None when it returns
      without doing anything: there is no message, its text or its images
      are nil, or both are empty. `decode` is `UIImage(data:)` and `png`
      is `pngData()`. */
  function Composed<I>(note: Option<Message>, decode: Bytes -> Option<I>, png: I -> Option<Bytes>): (c: Option<Composition>)
    ensures c.Some? <==> note.Some? && note.value.text.Some? && note.value.imagesData.Some?
                         && (note.value.text.value != [] || Images(note.value, decode).value != [])
    ensures c.Some? ==> c.value.text == note.value.text.value
    ensures c.Some? ==> |c.value.imagesData| <= |Images(note.value, decode).value| <= |note.value.imagesData.value|
  {
    match note
    case None => None
    case Some(m) =>
      match (m.text, Images(m, decode))
      case (Some(text), Some(selectedImages)) =>
        if text == [] && selectedImages == [] then None
        else Some(Composition(text, Collections.CompactMap(png, selectedImages)))
      case _ => None
  }

  /** When every image decodes and re-encodes, the composition carries one
      PNG per attached image, in order. */
  lemma ComposedKeepsImages<I>(m: Message, decode: Bytes -> Option<I>, png: I -> Option<Bytes>)
    requires m.text.Some? && m.imagesData.Some? && m.imagesData.value != []
    requires forall i :: 0 <= i < |m.imagesData.value| ==> decode(m.imagesData.value[i]).Some?
    requires forall i :: 0 <= i < |m.imagesData.value| ==> png(decode(m.imagesData.value[i]).value).Some?
    ensures Composed(Some(m), decode, png).Some?
    ensures var c := Composed(Some(m), decode, png).value;
      |c.imagesData| == |m.imagesData.value|
      && forall i :: 0 <= i < |c.imagesData| ==> c.imagesData[i] == png(decode(m.imagesData.value[i]).value).value
  {
    ImagesWhenAllDecode(m, decode);
    var selected := Images(m, decode).value;
    assert selected != [];
    Collections.CompactMapTotal(png, selected);
  }

  /** The message `pressToSendMessage` appends for a composition. */
  function ComposedMessage(c: Composition, now: Timestamp, id: Uuid): (m: Message)
    ensures m.isFromUser && m.text == Some(c.text) && m.imagesData == Some(c.imagesData)
    ensures IsTextAndImage(m)
  {
    NewMessage(id, Some(c.text), now, true, Some(c.imagesData))
  }
}
