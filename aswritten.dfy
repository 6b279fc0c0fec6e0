/** `resolveMime` as services/dbService.ts writes it. The table lookup
    `MIME_BY_EXTENSION[extension]` is a property read on a plain object, so
    besides the 28 own keys it also finds what every object inherits from
    `Object.prototype`. Of those inherited names only `constructor` and
    `__proto__` are written in lower case, the only case an extension can
    take. Both values are truthy and are not strings, so the value
    `resolveMime` returns has no `toLowerCase`. The call `classifyMedia`
    makes on it throws, and the `catch` of `getMessages` turns that into an
    empty list for the whole chat. */
module AsWritten {
  import opened Values
  import opened Text
  import opened Records
  import opened Media
  import opened Engine
  import opened DbService

  /** The lower-case names every JavaScript object inherits. */
  const InheritedKeys: set<string> := {"constructor", "__proto__"}

  /** Neither inherited name is a key of the table. */
  lemma InheritedKeysAreNotOwn()
    ensures forall k :: k in InheritedKeys ==> k !in MimeByExtension
  {
    assert "constructor" !in MimeByExtension;
    assert "__proto__" !in MimeByExtension;
  }

  /** What `MIME_BY_EXTENSION[extension]` reads: an own entry, an inherited
      member, or `undefined`. */
  datatype Lookup = Own(mime: string) | Inherited(key: string) | Missing

  function LookupAsWritten(extension: string): Lookup {
    if extension in MimeByExtension then Own(MimeByExtension[extension])
    else if extension in InheritedKeys then Inherited(extension)
    else Missing
  }

  /** What the code's `resolveMime` returns: a string, or the inherited
      member, which is not one. */
  datatype MimeValue = MimeText(text: string) | NotText(key: string)

  function ResolveMimeAsWritten(rawMimeType: Option<string>, fileName: Option<string>, filePath: Option<string>): MimeValue {
    var mime := ExplicitMime(rawMimeType);
    if mime.Some? then MimeText(mime.value)
    else
      var extension := LookupExtension(fileName, filePath);
      if extension.None? then MimeText(UnknownMime)
      else match LookupAsWritten(extension.value)
        case Own(m) => MimeText(m)
        case Inherited(k) => NotText(k)
        case Missing => MimeText(UnknownMime)
  }

  /** The code's `resolveMime` and the model's differ only on an inherited
      extension, where the code returns its non-string. */
  lemma ResolveMimeAsWrittenAgrees(rawMimeType: Option<string>, fileName: Option<string>, filePath: Option<string>)
    ensures var v := ResolveMimeAsWritten(rawMimeType, fileName, filePath);
      var extension := LookupExtension(fileName, filePath);
      (v.NotText? <==> ExplicitMime(rawMimeType).None? && extension.Some? && extension.value in InheritedKeys)
      && (v.MimeText? ==> v.text == ResolveMime(rawMimeType, fileName, filePath))
  {
    var extension := LookupExtension(fileName, filePath);
    if extension.Some? {
      LookupAgrees(extension.value);
    }
  }

  /** The property read agrees with the own-key lookup except on an
      inherited name, where it finds a member that is not a string. */
  lemma LookupAgrees(e: string)
    ensures LookupAsWritten(e).Inherited? <==> e in InheritedKeys
    ensures LookupAsWritten(e).Own? ==> LookupAsWritten(e).mime == MimeForExtension(Some(e))
    ensures LookupAsWritten(e).Missing? ==> MimeForExtension(Some(e)) == UnknownMime
  {
    InheritedKeysAreNotOwn();
  }

  /** The code's row mapper: `None` where `classifyMedia` throws. */
  function MapMessageRowAsWritten(row: Row): Option<Message> {
    var path := ToNonEmptyString(At(row, 7));
    var fileName := ResolvedFileName(ToNonEmptyString(At(row, 6)), path);
    match ResolveMimeAsWritten(ToNonEmptyString(At(row, 8)), Some(fileName), path)
    case MimeText(m) => Some(MessageFromRow(row, m))
    case NotText(_) => None
  }

  /** `xs.map(f)` for an `f` that may throw (`None`): it throws as soon as
      one element does. */
  function MapOrThrow<A, B>(xs: seq<A>, f: A -> Option<B>): (r: Option<seq<B>>)
    ensures r.Some? ==> |r.value| == |xs|
  {
    if xs == [] then Some([])
    else
      var init := MapOrThrow(xs[..|xs| - 1], f);
      var last := f(xs[|xs| - 1]);
      if init.Some? && last.Some? then Some(init.value + [last.value]) else None
  }

  /** The map succeeds exactly when every element does, and then holds
      their results in order. */
  lemma {:induction false} MapOrThrowSpec<A, B>(xs: seq<A>, f: A -> Option<B>)
    ensures MapOrThrow(xs, f).Some? <==> forall i :: 0 <= i < |xs| ==> f(xs[i]).Some?
    ensures MapOrThrow(xs, f).Some? ==> forall i :: 0 <= i < |xs| ==> MapOrThrow(xs, f).value[i] == f(xs[i]).value
  {
    if xs != [] {
      var init := xs[..|xs| - 1];
      MapOrThrowSpec(init, f);
      assert forall i :: 0 <= i < |init| ==> init[i] == xs[i];
    }
  }

  /** `rows.map(mapRow)` as written: `None` when any row throws. */
  function MapMessageRowsAsWritten(rows: seq<Row>): Option<seq<Message>> {
    MapOrThrow(rows, MapMessageRowAsWritten)
  }

  /** `getMessages` as written: one row that throws empties the whole chat. */
  function MessagesOfAsWritten(outcome: ExecOutcome): seq<Message> {
    if outcome.Sets? && |outcome.sets| > 0 then
      match MapMessageRowsAsWritten(outcome.sets[0].values)
      case Some(ms) => Reversed(ms)
      case None => []
    else []
  }

  /** A row the code maps without throwing, it maps as the model does. */
  lemma MapRowAsWrittenAgrees(row: Row)
    ensures MapMessageRowAsWritten(row).Some? ==> MapMessageRowAsWritten(row).value == MapMessageRow(row)
  {
    var path := ToNonEmptyString(At(row, 7));
    ResolveMimeAsWrittenAgrees(ToNonEmptyString(At(row, 8)), Some(ResolvedFileName(ToNonEmptyString(At(row, 6)), path)), path);
  }

  /** Where no row throws, the code maps each row as the model does. */
  lemma MapRowsAsWrittenAgrees(rows: seq<Row>)
    ensures MapMessageRowsAsWritten(rows).Some? <==> forall i :: 0 <= i < |rows| ==> MapMessageRowAsWritten(rows[i]).Some?
    ensures MapMessageRowsAsWritten(rows).Some? ==> MapMessageRowsAsWritten(rows).value == MapMessageRows(rows)
  {
    MapOrThrowSpec(rows, MapMessageRowAsWritten);
    forall i | 0 <= i < |rows| ensures MapMessageRowAsWritten(rows[i]).Some? ==> MapMessageRowAsWritten(rows[i]).value == MapMessageRow(rows[i]) {
      MapRowAsWrittenAgrees(rows[i]);
    }
  }

  /** The code returns either the model's messages or, when some row
      throws, none at all. */
  lemma MessagesAsWrittenAgree(outcome: ExecOutcome)
    ensures MessagesOfAsWritten(outcome) == MessagesOf(outcome) || MessagesOfAsWritten(outcome) == []
    ensures outcome.Sets? && |outcome.sets| > 0
      && (forall i :: 0 <= i < |outcome.sets[0].values| ==> MapMessageRowAsWritten(outcome.sets[0].values[i]).Some?)
      ==> MessagesOfAsWritten(outcome) == MessagesOf(outcome)
  {
    if outcome.Sets? && |outcome.sets| > 0 {
      MapRowsAsWrittenAgrees(outcome.sets[0].values);
    }
  }

  /** An attachment named `clip.constructor`, with no MIME type and no path. */
  function ConstructorRow(): Row {
    [Num(1), Num(0), Str("hi"), Num(1700000000000), Null, Null, Str("clip.constructor"), Null, Null]
  }

  /** The media name of that attachment, as the mapper reads it. */
  lemma ConstructorRowName()
    ensures ToNonEmptyString(At(ConstructorRow(), 6)) == Some("clip.constructor")
  {
    var name := "clip.constructor";
    assert At(ConstructorRow(), 6) == Str(name);
    assert !IsJsWhitespace(name[0]) && !IsJsWhitespace(name[|name| - 1]);
    ToNonEmptyStringOfClean(name);
  }

  /** It has neither a path nor a MIME type. */
  lemma ConstructorRowNoPathNoMime()
    ensures ToNonEmptyString(At(ConstructorRow(), 7)) == None
    ensures ToNonEmptyString(At(ConstructorRow(), 8)) == None
  {
  }

  lemma ConstructorExtension()
    ensures LookupExtension(Some("clip.constructor"), None) == Some("constructor")
  {
    var e := "constructor";
    assert IsAlphanumericWord(e);
    ToLowerWithoutCapitals(e);
    assert "clip.constructor" == "clip" + "." + e;
    ExtensionOfWordSuffix("clip", e);
  }

  /** Mapping that row throws. */
  lemma ConstructorRowThrows()
    ensures MapMessageRowAsWritten(ConstructorRow()) == None
  {
    ConstructorRowName();
    ConstructorRowNoPathNoMime();
    ConstructorExtension();
    assert "constructor" in InheritedKeys;
    ResolveMimeAsWrittenAgrees(None, Some("clip.constructor"), None);
  }

  /** The finding: a chat whose one message is that attachment comes back
      empty from `getMessages` as written, where the model returns its message. */
  lemma InheritedExtensionEmptiesChat()
    ensures var outcome := Sets([ResultSet([ConstructorRow()])]);
      MessagesOfAsWritten(outcome) == [] && |MessagesOf(outcome)| == 1
  {
    var row := ConstructorRow();
    ConstructorRowThrows();
    ThrowingRowEmptiesChat(row);
    OneRowOneMessage(row);
  }

  /** As written, a chat whose one row throws comes back empty. */
  lemma ThrowingRowEmptiesChat(row: Row)
    requires MapMessageRowAsWritten(row) == None
    ensures MessagesOfAsWritten(Sets([ResultSet([row])])) == []
  {
    assert [row][..0] == [];
  }

  /** In the model, a chat of one row has one message. */
  lemma OneRowOneMessage(row: Row)
    ensures |MessagesOf(Sets([ResultSet([row])]))| == 1
  {
    MessagesOfSpec(Sets([ResultSet([row])]));
  }
}
