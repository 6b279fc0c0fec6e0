/** The query layer of services/dbService.ts: the row mappers, the
    fallback from the preferred to the legacy conversation query, the
    oldest-first message list, and the module state that holds the open
    database. */
module DbService {
  import opened Values
  import opened Records
  import opened Media
  import opened Engine
  import opened SqlColumns

  /** The message `getConversations` throws when neither query can run. */
  const ConversationsError: string := "Failed to query conversations. Database schema might be incompatible."

  /** The JID shown for a chat whose user column is empty. */
  const UnknownJid: string := "Unknown"

  // ---------------------------------------------------------------- chats

  /** One conversation row: `_id`, `row[1] || 'Unknown'`, subject and
      timestamp, taken over unconverted. */
  function MapConversationRow(row: Row): (c: Conversation)
    ensures c.id == At(row, 0) && c.subject == At(row, 2) && c.timestamp == At(row, 3)
    ensures Truthy(c.jid)
    ensures Truthy(At(row, 1)) ==> c.jid == At(row, 1)
    ensures !Truthy(At(row, 1)) ==> c.jid == Str(UnknownJid)
  {
    Conversation(At(row, 0), OrElse(At(row, 1), Str(UnknownJid)), At(row, 2), At(row, 3))
  }

  /** `rows.map(mapRow)` for conversations. */
  function MapConversations(rows: seq<Row>): seq<Conversation> {
    seq(|rows|, i requires 0 <= i < |rows| => MapConversationRow(rows[i]))
  }

  /** The conversations of the first result set; none when `exec` returned no set. */
  function FirstSetConversations(sets: seq<ResultSet>): seq<Conversation> {
    if |sets| > 0 then MapConversations(sets[0].values) else []
  }

  /** What `getConversations` returns, or throws, given what the two
      queries would yield. The legacy query is consulted only when the
      preferred one throws. */
  function ConversationsFrom(preferred: ExecOutcome, legacy: ExecOutcome): Result<seq<Conversation>, string> {
    if preferred.Sets? then Success(FirstSetConversations(preferred.sets))
    else if legacy.Sets? then Success(FirstSetConversations(legacy.sets))
    else Failure(ConversationsError)
  }

  /** `getConversations` fails only when both queries throw, and then with
      its fixed message; when the preferred query runs, the legacy one has
      no say; the chats are those of the first result set that answered,
      one per row, in order, and every chat has a truthy JID. */
  lemma ConversationsFromSpec(preferred: ExecOutcome, legacy: ExecOutcome)
    ensures var r := ConversationsFrom(preferred, legacy);
      (r.Failure? <==> preferred.Raised? && legacy.Raised?)
      && (r.Failure? ==> r.error == ConversationsError)
      && (preferred.Sets? ==> forall other :: ConversationsFrom(preferred, other) == r)
      && (r.Success? ==>
            var answered := if preferred.Sets? then preferred.sets else legacy.sets;
            |r.value| == (if |answered| > 0 then |answered[0].values| else 0)
            && (forall i :: 0 <= i < |r.value| ==>
                  r.value[i] == MapConversationRow(answered[0].values[i]) && Truthy(r.value[i].jid)))
  {
  }

  /** A chat read by the preferred query: its JID is the phone number its
      LID maps to, else its own user part, else `Unknown` when that is
      empty or NULL; its subject is the resolved subject. */
  lemma PreferredRowConversation(chatId: Cell, phoneUser: Option<string>, jidUser: Option<string>,
                                 subject: Option<string>, displayName: Option<string>, sortTimestamp: Cell)
    ensures var c := MapConversationRow(MappedQueryRow(chatId, phoneUser, jidUser, subject, displayName, sortTimestamp));
      var user := if phoneUser.Some? then phoneUser else jidUser;
      c.id == chatId && c.timestamp == sortTimestamp
      && c.jid == (if user.Some? && user.value != "" then Str(user.value) else Str(UnknownJid))
      && c.subject == StrOrNull(ResolvedSubject(subject, displayName))
  {
  }

  /** A chat read by the legacy query: its JID is its user part, else `Unknown`. */
  lemma LegacyRowConversation(chatId: Cell, jidUser: Option<string>, subject: Option<string>, sortTimestamp: Cell)
    ensures var c := MapConversationRow(LegacyQueryRow(chatId, jidUser, subject, sortTimestamp));
      c.id == chatId && c.timestamp == sortTimestamp && c.subject == StrOrNull(subject)
      && c.jid == (if jidUser.Some? && jidUser.value != "" then Str(jidUser.value) else Str(UnknownJid))
  {
  }

  // ------------------------------------------------------------- messages

  /** `typeof row[4] === 'number' ? row[4] : null`: the message type when the
      cell holds a number, otherwise none. */
  function MessageTypeOf(c: Cell): Option<int> {
    if c.Num? then Some(c.n) else None
  }

  /** `mediaName || basenameFromPath(mediaPath) || UNKNOWN_FILE_NAME` */
  function ResolvedFileName(name: Option<string>, path: Option<string>): (r: string)
    ensures r != ""
    ensures name.Some? && name.value != "" ==> r == name.value
    ensures (name.None? || name.value == "") && BasenameFromPath(path).Some? ==> r == BasenameFromPath(path).value
    ensures (name.None? || name.value == "") && BasenameFromPath(path).None? ==> r == UnknownFileName
  {
    if name.Some? && name.value != "" then name.value
    else if BasenameFromPath(path).Some? then BasenameFromPath(path).value
    else UnknownFileName
  }

  /** `hasMediaMetadata || hasKnownMediaMessageType`; the three metadata
      values are non-empty strings or null, so presence is truthiness. */
  predicate HasMedia(name: Option<string>, path: Option<string>, rawMime: Option<string>, messageType: Option<int>) {
    name.Some? || path.Some? || rawMime.Some?
    || messageType == Some(1) || messageType == Some(2) || messageType == Some(3)
  }

  /** The MIME type the mapper resolves for a row. */
  function RowMime(row: Row): string {
    var path := ToNonEmptyString(At(row, 7));
    ResolveMime(ToNonEmptyString(At(row, 8)), Some(ResolvedFileName(ToNonEmptyString(At(row, 6)), path)), path)
  }

  /** The message record the mapper builds from a row once the MIME type is
      resolved to `mime`. */
  function MessageFromRow(row: Row, mime: string): Message {
    var name := ToNonEmptyString(At(row, 6));
    var path := ToNonEmptyString(At(row, 7));
    var rawMime := ToNonEmptyString(At(row, 8));
    var messageType := MessageTypeOf(At(row, 4));
    var fileName := ResolvedFileName(name, path);
    var c := ClassifyMedia(mime, Some(fileName), path, messageType);
    var hasMedia := HasMedia(name, path, rawMime, messageType);
    Message(
      At(row, 0),
      At(row, 1) == Num(1),
      ToNonEmptyString(At(row, 2)),
      At(row, 3),
      ToNonEmptyString(At(row, 5)),
      hasMedia,
      if hasMedia then Some(fileName) else None,
      if hasMedia then path else None,
      if hasMedia then Some(c.mime) else None,
      if hasMedia then Some(c.kind) else None,
      if hasMedia then Some(c.typeLabel) else None,
      if hasMedia then Some(c.mime) else None)
  }

  /** The mapper `getMessages` applies to each row. */
  function MapMessageRow(row: Row): Message {
    MessageFromRow(row, RowMime(row))
  }

  /** What a mapped message says about its row: `from_me` is exactly the
      number 1; the texts are trimmed or null; the message has media exactly
      when a media name, path or MIME column is a non-blank string or the
      message type is 1, 2 or 3. With media, it has the file name
      `ResolvedFileName` gives (never empty); the MIME type `resolveMime`
      gives for the MIME column, that name and the path (never empty, and
      the trimmed MIME column when that is given), repeated as `media_type`;
      the kind `classifyMedia` gives for them and the message type, with its
      own label; and the trimmed path. Without media, all six media fields
      are null. */
  lemma MapMessageRowSpec(row: Row)
    ensures var m := MapMessageRow(row);
      var name := ToNonEmptyString(At(row, 6));
      var path := ToNonEmptyString(At(row, 7));
      var rawMime := ToNonEmptyString(At(row, 8));
      m.id == At(row, 0) && m.timestamp == At(row, 3)
      && (m.fromMe <==> At(row, 1) == Num(1))
      && m.textData == ToNonEmptyString(At(row, 2)) && m.quotedText == ToNonEmptyString(At(row, 5))
      && (m.hasMedia <==> name.Some? || path.Some? || rawMime.Some?
                          || MessageTypeOf(At(row, 4)) in {Some(1), Some(2), Some(3)})
      && (m.hasMedia ==>
            m.mediaFileName == Some(ResolvedFileName(name, path)) && m.mediaFileName.value != ""
            && m.mediaMime == Some(ResolveMime(rawMime, m.mediaFileName, path))
            && m.mediaMime.value != "" && m.mediaType == m.mediaMime
            && (rawMime.Some? ==> m.mediaMime == rawMime)
            && m.mediaKind == Some(ClassifyMedia(m.mediaMime.value, m.mediaFileName, path, MessageTypeOf(At(row, 4))).kind)
            && m.mediaTypeLabel == Some(m.mediaKind.value.Label())
            && m.mediaFilePath == path)
      && (!m.hasMedia ==>
            m.mediaFileName.None? && m.mediaFilePath.None? && m.mediaMime.None?
            && m.mediaKind.None? && m.mediaTypeLabel.None? && m.mediaType.None?)
  {
    var rawMime := ToNonEmptyString(At(row, 8));
    if rawMime.Some? {
      ToNonEmptyStringIdempotent(At(row, 8));
    }
  }

  /** A row with no media name, path or MIME column but a legacy media type
      (1, 2 or 3) still has media: the placeholder name, no path, the
      unknown MIME type, and the kind its type stands for. */
  lemma LegacyTypedRow(row: Row)
    requires ToNonEmptyString(At(row, 6)).None? && ToNonEmptyString(At(row, 7)).None?
    requires ToNonEmptyString(At(row, 8)).None?
    requires At(row, 4) == Num(1) || At(row, 4) == Num(2) || At(row, 4) == Num(3)
    ensures var m := MapMessageRow(row);
      m.hasMedia && m.mediaFileName == Some(UnknownFileName) && m.mediaFilePath == None
      && m.mediaMime == Some(UnknownMime)
      && m.mediaKind == Some(LegacyKind(MessageTypeOf(At(row, 4))))
  {
    var messageType := MessageTypeOf(At(row, 4));
    MapMessageRowSpec(row);
    UnknownFileNameHasNoExtension();
    UnknownMimeHasNoFamily();
    UnknownFileNameIsNoSticker(messageType);
    ClassifyByMimeFamily(UnknownMime, Some(UnknownFileName), None, messageType);
  }

  /** A voice note of the legacy schema, type 2 with no media columns, is audio. */
  lemma LegacyAudioExample()
    ensures var m := MapMessageRow([Num(7), Num(0), Null, Num(1700000000000), Num(2), Null, Null, Null, Null]);
      m.hasMedia && m.mediaKind == Some(Audio) && m.mediaTypeLabel == Some("Áudio")
  {
    var row := [Num(7), Num(0), Null, Num(1700000000000), Num(2), Null, Null, Null, Null];
    assert At(row, 4) == Num(2);
    LegacyTypedRow(row);
    MapMessageRowSpec(row);
  }

  /** A media message without a name is named after the last segment of
      its path, and one with neither after the fixed placeholder. */
  lemma MessageFileNameFallback(row: Row)
    requires MapMessageRow(row).hasMedia && ToNonEmptyString(At(row, 6)).None?
    ensures var path := ToNonEmptyString(At(row, 7));
      MapMessageRow(row).mediaFileName
        == Some(if path.Some? then BasenameFromPath(path).value else UnknownFileName)
  {
  }

  /** `rows.map(mapRow)`. The length and element facts are stated here so
      that the proofs about the message list need not unfold the mapper. */
  function MapMessageRows(rows: seq<Row>): (ms: seq<Message>)
    ensures |ms| == |rows|
    ensures forall i :: 0 <= i < |rows| ==> ms[i] == MapMessageRow(rows[i])
  {
    seq(|rows|, i requires 0 <= i < |rows| => MapMessageRow(rows[i]))
  }

  /** `s` back to front. */
  function Reversed<T>(s: seq<T>): (r: seq<T>)
    ensures |r| == |s|
  {
    if s == [] then [] else [s[|s| - 1]] + Reversed(s[..|s| - 1])
  }

  /** Element `i` of the reversal is element `|s| - 1 - i` of `s`. */
  lemma {:induction false} ReversedAt<T>(s: seq<T>)
    ensures forall i :: 0 <= i < |s| ==> Reversed(s)[i] == s[|s| - 1 - i]
  {
    if s != [] {
      ReversedAt(s[..|s| - 1]);
    }
  }

  /** Reversing twice gives the sequence back. */
  lemma ReversedTwice<T>(s: seq<T>)
    ensures Reversed(Reversed(s)) == s
  {
    ReversedAt(s);
    ReversedAt(Reversed(s));
  }

  /** `Array.prototype.reverse`: swaps the ends of `a` pairwise, moving inwards. */
  method ReverseInPlace<T>(a: array<T>)
    modifies a
    ensures a[..] == Reversed(old(a[..]))
  {
    ghost var orig := a[..];
    var n := a.Length;
    var lo := 0;
    while lo < n - 1 - lo
      invariant 0 <= lo && lo <= n - lo
      invariant forall k :: 0 <= k < lo ==> a[k] == orig[n - 1 - k] && a[n - 1 - k] == orig[k]
      invariant forall k :: lo <= k < n - lo ==> a[k] == orig[k]
    {
      var hi := n - 1 - lo;
      a[lo], a[hi] := a[hi], a[lo];
      lo := lo + 1;
    }
    ReversedAt(orig);
    assert forall k :: 0 <= k < n ==> a[..][k] == Reversed(orig)[k];
  }

  /** `rows.map(mapRow).reverse()`: the mapped rows in a fresh array,
      reversed in place. */
  method MapAndReverse(rows: seq<Row>) returns (msgs: seq<Message>)
    ensures msgs == Reversed(MapMessageRows(rows))
  {
    var n := |rows|;
    var a := new Message[n](i requires 0 <= i < n => MapMessageRow(rows[i]));
    assert a[..] == MapMessageRows(rows);
    ReverseInPlace(a);
    msgs := a[..];
  }

  /** The messages of a chat, oldest first, given what its query yields:
      the first result set's rows mapped and reversed; none when the query
      returns no set or throws. */
  function MessagesOf(outcome: ExecOutcome): seq<Message> {
    if outcome.Sets? && |outcome.sets| > 0 then Reversed(MapMessageRows(outcome.sets[0].values)) else []
  }

  /** The query orders newest first, so message `i` of the list is row
      `n - 1 - i`: one message per row, none lost, none added; a throwing
      query, or one that returns no result set, gives no message. */
  lemma MessagesOfSpec(outcome: ExecOutcome)
    ensures outcome.Raised? ==> MessagesOf(outcome) == []
    ensures outcome.Sets? && outcome.sets == [] ==> MessagesOf(outcome) == []
    ensures outcome.Sets? && |outcome.sets| > 0 ==>
      var rows := outcome.sets[0].values;
      |MessagesOf(outcome)| == |rows|
      && forall i :: 0 <= i < |rows| ==> MessagesOf(outcome)[i] == MapMessageRow(rows[|rows| - 1 - i])
  {
    if outcome.Sets? && |outcome.sets| > 0 {
      ReversedAt(MapMessageRows(outcome.sets[0].values));
    }
  }

  // ---------------------------------------------------------- module state

  /** The module-level `dbInstance` and the queries on it. */
  class Service {
    var db: Database?

    /** Before `initDatabase`, there is no database. */
    constructor()
      ensures db == null
    {
      db := null;
    }

    /** The last step of `initDatabase`: the opened database becomes the
        one every query runs on. */
    method Attach(database: Database)
      modifies this
      ensures db == database
    {
      db := database;
    }

    /** `getConversations(limit)`: no chats and no query without a
        database; otherwise the preferred query, and the legacy one only
        when the preferred one throws, with the outcome `ConversationsFrom`
        states. */
    method GetConversations(limit: int := 1000) returns (r: Result<seq<Conversation>, string>)
      modifies db
      ensures db == null ==> r == Success([])
      ensures db != null ==>
        r == ConversationsFrom(db.reply(PreferredConversations(limit)), db.reply(LegacyConversations(limit)))
      ensures db != null ==>
        db.executed == old(db.executed) + [PreferredConversations(limit)]
          + (if db.reply(PreferredConversations(limit)).Sets? then [] else [LegacyConversations(limit)])
    {
      if db == null {
        return Success([]);
      }
      var res := db.Exec(PreferredConversations(limit));
      if res.Sets? {
        if |res.sets| == 0 {
          return Success([]);
        }
        return Success(MapConversations(res.sets[0].values));
      }
      var legacyRes := db.Exec(LegacyConversations(limit));
      if legacyRes.Sets? && |legacyRes.sets| > 0 {
        return Success(MapConversations(legacyRes.sets[0].values));
      } else if legacyRes.Sets? {
        return Success([]);
      }
      return Failure(ConversationsError);
    }

    /** `getMessages(chatRowId, limit)`: no messages and no query without a
        database; otherwise one query, whose rows become the messages
        `MessagesOf` states, and an error becomes the empty list. */
    method GetMessages(chatRowId: int, limit: int := 5000) returns (msgs: seq<Message>)
      modifies db
      ensures db == null ==> msgs == []
      ensures db != null ==> msgs == MessagesOf(db.reply(ChatMessages(chatRowId, limit)))
      ensures db != null ==> db.executed == old(db.executed) + [ChatMessages(chatRowId, limit)]
    {
      if db == null {
        return [];
      }
      var res := db.Exec(ChatMessages(chatRowId, limit));
      if res.Sets? && |res.sets| > 0 {
        msgs := MapAndReverse(res.sets[0].values);
      } else {
        msgs := [];
      }
    }
  }
}
