/**
 * The chat screen `Scenes/ChatViewControllerScene/Controller/ChatViewController`:
 * its row list, its stored chat, and the handlers that append to the list,
 * rebuild it, send over the socket and save.
 */
module ChatScreen {
  import opened Wrappers
  import opened Json
  import opened ChatModel
  import opened ChatTimeline
  import opened WebSocketCodec
  import Transport

  class ChatViewController {
    const webSocketManager: Transport.WebSocketManager
    /** `Calendar.current`. */
    const calendar: Calendar
    /** The rows shown. */
    var messages: seq<ChatItem>
    /** `UserDefaults.standard` under `"chatMessages"`. */
    var store: Option<StoredChat>

    /** The rows are always a rebuilt timeline. */
    ghost predicate Valid()
      reads this
    {
      WellDated(messages, calendar) && StartsAfter(messages, None, calendar)
    }

    constructor(json: JsonLibrary, calendar: Calendar, saved: Option<StoredChat>)
      ensures Valid()
      ensures fresh(webSocketManager) && webSocketManager.json == json && webSocketManager.written == []
      ensures this.calendar == calendar && messages == [] && store == saved
    {
      webSocketManager := new Transport.WebSocketManager(json);
      this.calendar := calendar;
      messages := [];
      store := saved;
    }

    /** `updateSnapshot()`. */
    method UpdateSnapshot()
      modifies this
      ensures messages == Timeline(old(messages), calendar)
      ensures store == old(store)
      ensures Valid()
    {
      messages := RebuildTimeline(messages, calendar);
      TimelineCharacterized(old(messages), messages, calendar);
    }

    /** `saveMessages()`: the messages, without the headers, are stored. */
    method SaveMessages()
      modifies this
      ensures store == Some(Encoded(PersistAll(Messages(messages))))
      ensures messages == old(messages)
    {
      var onlyMessages := Messages(messages);
      store := Some(Encoded(PersistAll(onlyMessages)));
    }

    /** `loadMessages()`: a stored chat that decodes replaces the rows, with
        record `k` given the id `freshIds(k)`; either way the rows are then
        saved, which overwrites a stored chat that did not decode. */
    method LoadMessages(freshIds: nat -> Uuid)
      requires Valid()
      modifies this
      ensures Valid()
      ensures old(store).Some? && old(store).value.Encoded? ==>
        messages == Timeline(MessageItems(RestoreAll(old(store).value.records, freshIds)), calendar)
      ensures !(old(store).Some? && old(store).value.Encoded?) ==> messages == old(messages)
      ensures store == Some(Encoded(PersistAll(Messages(messages))))
    {
      match store {
        case Some(Encoded(records)) =>
          var decoded := RestoreAll(records, freshIds);
          messages := MessageItems(decoded);
          UpdateSnapshot();
        case Some(Undecodable) =>
        case None =>
      }
      SaveMessages();
    }

    /** The part of `viewDidLoad()` that fills the rows: `loadMessages()`
        and `updateSnapshot()`. */
    method ViewDidLoad(freshIds: nat -> Uuid)
      requires Valid()
      modifies this
      ensures Valid()
      ensures old(store).Some? && old(store).value.Encoded? ==>
        messages == Timeline(MessageItems(RestoreAll(old(store).value.records, freshIds)), calendar)
      ensures !(old(store).Some? && old(store).value.Encoded?) ==> messages == old(messages)
      ensures store == Some(Encoded(PersistAll(Messages(messages))))
    {
      LoadMessages(freshIds);
      ghost var loaded := messages;
      UpdateSnapshot();
      WellDatedIsDated(loaded, None, calendar);
    }

    /** `pressToSendFileMessage(_:)`: a posted message is appended and saved. */
    method PressToSendFileMessage(note: Option<Message>)
      requires Valid()
      modifies this
      ensures Valid()
      ensures note.Some? ==> messages == Timeline(old(messages) + [MessageItem(note.value)], calendar)
      ensures note.Some? ==> store == Some(Encoded(PersistAll(Messages(messages))))
      ensures note.None? ==> messages == old(messages) && store == old(store)
    {
      if note.Some? {
        messages := messages + [MessageItem(note.value)];
        UpdateSnapshot();
        SaveMessages();
      }
    }

    /** `pressToSendMessage(_:)`: the composed message is appended, sent as
        one JSON frame and saved; nothing happens when there is nothing to
        send. */
    method PressToSendMessage<I>(note: Option<Message>, decode: Bytes -> Option<I>, png: I -> Option<Bytes>,
                                 now: Timestamp, id: Uuid)
      requires Valid()
      modifies this, webSocketManager
      ensures Valid()
      ensures webSocketManager.delegate == old(webSocketManager.delegate)
      ensures Composed(note, decode, png).None? ==>
        messages == old(messages) && store == old(store)
        && webSocketManager.written == old(webSocketManager.written)
      ensures Composed(note, decode, png).Some? ==>
        var c := Composed(note, decode, png).value;
        && messages == Timeline(old(messages) + [MessageItem(ComposedMessage(c, now, id))], calendar)
        && webSocketManager.written == old(webSocketManager.written)
             + [TextFrame(webSocketManager.json.printObject(MessageObject(c.text, c.imagesData)))]
        && store == Some(Encoded(PersistAll(Messages(messages))))
    {
      match Composed(note, decode, png) {
        case Some(c) =>
          var newMessage := ComposedMessage(c, now, id);
          messages := messages + [MessageItem(newMessage)];
          UpdateSnapshot();
          webSocketManager.SendTextAndImage(c.text, c.imagesData);
          SaveMessages();
        case None =>
      }
    }

    /** `sendMessage(text:)`: a non-empty text is appended, sent as a
        `"text"` object and saved. */
    method SendMessage(text: string, now: Timestamp, id: Uuid)
      requires Valid()
      modifies this, webSocketManager
      ensures Valid()
      ensures webSocketManager.delegate == old(webSocketManager.delegate)
      ensures text == [] ==>
        messages == old(messages) && store == old(store)
        && webSocketManager.written == old(webSocketManager.written)
      ensures text != [] ==>
        && messages == Timeline(old(messages) + [MessageItem(NewMessage(id, Some(text), now, true))], calendar)
        && webSocketManager.written == old(webSocketManager.written)
             + [TextFrame(webSocketManager.json.printObject(MessageObject(text, [])))]
        && store == Some(Encoded(PersistAll(Messages(messages))))
    {
      if text == [] {
        return;
      }
      var newMessage := NewMessage(id, Some(text), now, true, None);
      messages := messages + [MessageItem(newMessage)];
      UpdateSnapshot();
      webSocketManager.SendTextAndImage(text, []);
      SaveMessages();
    }

    /** `didReceiveContent(_:)`: the delivered content becomes a message
        from the other side, stamped `now`. */
    method DidReceiveContent(content: WebSocketContent, now: Timestamp, id: Uuid)
      requires Valid()
      modifies this
      ensures Valid()
      ensures messages == Timeline(old(messages) + [MessageItem(ReceivedMessage(content, now, id))], calendar)
      ensures store == old(store)
    {
      var newMessage: Message;
      match content {
        case Text(text) =>
          newMessage := NewMessage(id, Some(text), now, false);
        case Image(image) =>
          newMessage := NewMessage(id, Some(""), now, false, image);
        case ImageWithText(text, image) =>
          newMessage := NewMessage(id, Some(text), now, false, image);
        case Document(data, fileName, mimeType) =>
          var documentData := ChatModel.Document(data, fileName, mimeType);
          newMessage := NewMessage(id, Some(""), now, false, None, Some(documentData));
      }
      messages := messages + [MessageItem(newMessage)];
      UpdateSnapshot();
    }
  }
}
