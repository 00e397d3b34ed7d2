/**
 * The chat's data model: `Message`, `Document` and `ChatItem`, the three
 * display predicates, the identity-only hash, the decoded image list, and
 * the `Codable` form a message is stored in.
 */
module ChatModel {
  import opened Wrappers
  import opened Collections
  import Base64

  type Bytes = Base64.Bytes

  /** A `UUID`; fresh values are passed in wherever the source draws one. */
  type Uuid = nat

  /** A `Date`, as a count of time units since a fixed instant. */
  type Timestamp = int

  /** An attached file. */
  datatype Document = Document(data: Bytes, fileName: string, mimeType: string)

  /** A chat message. `id` is drawn when the message is created. */
  datatype Message = Message(
    id: Uuid,
    text: Option<string>,
    timestamp: Timestamp,
    isFromUser: bool,
    imagesData: Option<seq<Bytes>>,
    documentData: Option<Document>)

  /** A row of the chat: a day header or a message. */
  datatype ChatItem = Date(date: Timestamp) | MessageItem(message: Message)

  /** `Message.init(text:timestamp:isFromUser:imagesData:documentData:)`,
      with `id` the `UUID()` the property initialiser draws. The last two
      arguments default to nil. */
  function NewMessage(id: Uuid, text: Option<string>, timestamp: Timestamp, isFromUser: bool,
                      imagesData: Option<seq<Bytes>> := None,
                      documentData: Option<Document> := None): (m: Message)
    ensures m.id == id && m.text == text && m.timestamp == timestamp && m.isFromUser == isFromUser
    ensures m.imagesData == imagesData && m.documentData == documentData
  {
    Message(id, text, timestamp, isFromUser, imagesData, documentData)
  }

  /** What `hash(into:)` feeds the hasher: the id alone. */
  function HashKey(m: Message): Uuid {
    m.id
  }

  /** The synthesised `==` compares every stored property, the hash only the
      id, so equal messages hash alike, whatever their content. */
  lemma HashAgreesWithEquality(a: Message, b: Message)
    ensures a == b ==> HashKey(a) == HashKey(b)
    ensures HashKey(a) == HashKey(b) <==> a.id == b.id
  {
  }

  /** Changing a message's content gives a different message with the same
      hash: the hash reads the id and nothing else. */
  lemma HashIgnoresContent(m: Message, text: Option<string>, timestamp: Timestamp, isFromUser: bool,
                           imagesData: Option<seq<Bytes>>, documentData: Option<Document>)
    ensures var n := Message(m.id, text, timestamp, isFromUser, imagesData, documentData);
      && HashKey(n) == HashKey(m)
      && (n == m <==> text == m.text && timestamp == m.timestamp && isFromUser == m.isFromUser
                      && imagesData == m.imagesData && documentData == m.documentData)
  {
  }

  /** `images`: `imagesData?.compactMap { UIImage(data: $0) }`, with
      `UIImage(data:)` given as `decode`. */
  function Images<I>(m: Message, decode: Bytes -> Option<I>): (r: Option<seq<I>>)
    ensures r.Some? <==> m.imagesData.Some?
    ensures r.Some? ==> |r.value| <= |m.imagesData.value|
  {
    match m.imagesData
    case Some(data) => Some(CompactMap(decode, data))
    case None => None
  }

  /** When every image decodes, `images` has one image per data item, in order. */
  lemma ImagesWhenAllDecode<I>(m: Message, decode: Bytes -> Option<I>)
    requires m.imagesData.Some?
    requires forall i :: 0 <= i < |m.imagesData.value| ==> decode(m.imagesData.value[i]).Some?
    ensures |Images(m, decode).value| == |m.imagesData.value|
    ensures forall i :: 0 <= i < |m.imagesData.value| ==>
      Images(m, decode).value[i] == decode(m.imagesData.value[i]).value
  {
    CompactMapTotal(decode, m.imagesData.value);
  }

  predicate IsImageOnly(m: Message) {
    m.text.None? && m.imagesData.Some?
  }

  predicate IsTextOnly(m: Message) {
    m.text.Some? && m.imagesData.None?
  }

  predicate IsTextAndImage(m: Message) {
    m.text.Some? && m.imagesData.Some?
  }

  /** At most one of the three predicates holds, and one holds exactly
      when the message has text or image data. */
  lemma KindsPartition(m: Message)
    ensures !(IsImageOnly(m) && IsTextOnly(m))
    ensures !(IsImageOnly(m) && IsTextAndImage(m))
    ensures !(IsTextOnly(m) && IsTextAndImage(m))
    ensures IsImageOnly(m) || IsTextOnly(m) || IsTextAndImage(m) <==> m.text.Some? || m.imagesData.Some?
  {
  }

  /** The `Codable` form of a message: the five `CodingKeys`; the id is not
      among them. */
  const CodingKeys: seq<string> := ["text", "timestamp", "isFromUser", "imagesData", "documentData"]

  datatype StoredMessage = StoredMessage(
    text: Option<string>,
    timestamp: Timestamp,
    isFromUser: bool,
    imagesData: Option<seq<Bytes>>,
    documentData: Option<Document>)

  /** The keys the synthesised `encode(to:)` writes: nil optionals are
      left out. */
  function StoredKeys(s: StoredMessage): (keys: set<string>)
    ensures keys <= set k | k in CodingKeys
    ensures "timestamp" in keys && "isFromUser" in keys
    ensures "id" !in keys
    ensures "text" in keys <==> s.text.Some?
    ensures "imagesData" in keys <==> s.imagesData.Some?
    ensures "documentData" in keys <==> s.documentData.Some?
  {
    {"timestamp", "isFromUser"}
    + (if s.text.Some? then {"text"} else {})
    + (if s.imagesData.Some? then {"imagesData"} else {})
    + (if s.documentData.Some? then {"documentData"} else {})
  }

  /** `encode(to:)`. */
  function Persist(m: Message): (s: StoredMessage)
    ensures s.text == m.text && s.timestamp == m.timestamp && s.isFromUser == m.isFromUser
    ensures s.imagesData == m.imagesData && s.documentData == m.documentData
  {
    StoredMessage(m.text, m.timestamp, m.isFromUser, m.imagesData, m.documentData)
  }

  /** `init(from:)`: the stored fields, and a fresh id since `id` is not
      decoded. */
  function Restore(s: StoredMessage, freshId: Uuid): (m: Message)
    ensures m.id == freshId
    ensures m.text == s.text && m.timestamp == s.timestamp && m.isFromUser == s.isFromUser
    ensures m.imagesData == s.imagesData && m.documentData == s.documentData
  {
    Message(freshId, s.text, s.timestamp, s.isFromUser, s.imagesData, s.documentData)
  }

  /** Storing and restoring a message keeps everything except the id. */
  lemma PersistRestore(m: Message, freshId: Uuid)
    ensures Restore(Persist(m), freshId) == m.(id := freshId)
    ensures Persist(Restore(Persist(m), freshId)) == Persist(m)
  {
  }

  /** `JSONEncoder().encode(onlyMessages)`. */
  function PersistAll(ms: seq<Message>): (r: seq<StoredMessage>)
    ensures |r| == |ms| && forall k :: 0 <= k < |ms| ==> r[k] == Persist(ms[k])
  {
    seq(|ms|, k requires 0 <= k < |ms| => Persist(ms[k]))
  }

  /** `JSONDecoder().decode([Message].self, ...)`; record `k` gets the id
      `freshIds(k)`. */
  function RestoreAll(records: seq<StoredMessage>, freshIds: nat -> Uuid): (r: seq<Message>)
    ensures |r| == |records| && forall k :: 0 <= k < |records| ==> r[k] == Restore(records[k], freshIds(k))
  {
    seq(|records|, k requires 0 <= k < |records| => Restore(records[k], freshIds(k)))
  }

  /** Saving and loading a chat gives back the same messages in the same
      order, each with a new id. */
  lemma PersistAllRestoreAll(ms: seq<Message>, freshIds: nat -> Uuid)
    ensures |RestoreAll(PersistAll(ms), freshIds)| == |ms|
    ensures forall k :: 0 <= k < |ms| ==> RestoreAll(PersistAll(ms), freshIds)[k] == ms[k].(id := freshIds(k))
    ensures PersistAll(RestoreAll(PersistAll(ms), freshIds)) == PersistAll(ms)
  {
    var r := RestoreAll(PersistAll(ms), freshIds);
    forall k | 0 <= k < |ms| ensures r[k] == ms[k].(id := freshIds(k)) {
      PersistRestore(ms[k], freshIds(k));
    }
  }
}
