# WhatsApp archive query layer, in Dafny

A model of `services/dbService.ts` from a browser viewer for WhatsApp
`msgstore.db` archives. That file turns SQL result rows into the
`Conversation` and `Message` records of `types.ts`. It has four layers,
each modelled here with the properties its code promises.

- **String helpers.** `toNonEmptyString` trims a value or gives null.
  `basenameFromPath` takes the trimmed segment after the last `/` or `\`.
  `extensionFromValue` takes the lower-cased suffix after the last `.`.
- **MIME resolution.** In `resolveMime`, an explicit MIME type wins.
  Otherwise the file name's extension is looked up in the 28-entry
  `MIME_BY_EXTENSION` table, and the path's extension is used only when the
  name has none. Anything else gives `unknown/unknown`.
- **Media classification.** `classifyMedia` is a first-match decision list.
  A sticker hint comes first, then the MIME family, then the legacy message
  types 1, 2 and 3, then unknown. Each kind carries its fixed Portuguese
  label.
- **Queries.** `getConversations` runs the preferred query and falls back on
  the legacy query only when the preferred one throws. It fails with a fixed
  message when both throw. `getMessages` maps each row and reverses the list
  in place, so the oldest message comes first. Any error gives an empty
  list.

Modules, in dependency order:

| file | module | contents |
|---|---|---|
| `values.dfy` | `Values` | `Option`, `Result`, the dynamic cell of a sql.js row, JavaScript truthiness and `\|\|` |
| `records.dfy` | `Records` | `MediaKind` with its labels, `Conversation`, `Message` |
| `text.dfy` | `Text` | the JavaScript string operations used: `trim`, ASCII `toLowerCase`, `split(/[\\/]/)`, `lastIndexOf`, `startsWith`, `includes` |
| `media.dfy` | `Media` | the table, the constants, and each pure helper with its lemmas |
| `sqlcolumns.dfy` | `SqlColumns` | the `COALESCE` column expressions of the preferred conversation query |
| `engine.dfy` | `Engine` | a database whose `exec` answers each query with result sets or an error, and logs the queries run |
| `dbservice.dfy` | `DbService` | the row mappers, the fallback policy, the in-place reversal, and the `Service` class holding `dbInstance` |
| `aswritten.dfy` | `AsWritten` | `resolveMime` exactly as written, and the finding below |

The helpers are functions. The two queries are methods on `Service`, whose
nullable `db` field is the module-level `dbInstance`. Each query calls
`Database.Exec`, which returns the database's fixed answer to that query and
appends the query to a ghost log. So the methods' contracts also say which
queries ran: the legacy query runs only after the preferred one throws, and
no query runs at all without a database. The reversal is an in-place swap
loop on an array, as `Array.prototype.reverse` does.

## Model

| member | source | states |
|---|---|---|
| Values.At | services/dbService.ts:191-194 | `row[i]`: the cell at `i`, `undefined` past the end of the row (a helper; `DbService.MapConversationRow` and `DbService.MapMessageRowSpec` state what the mappers read) |
| Values.Truthy | services/dbService.ts:192 | JavaScript truthiness of a cell: `undefined`, `null`, `0` and `''` are falsy, everything else truthy |
| Values.OrElse | services/dbService.ts:192 | `a \|\| b`: one of the two operands, and truthy exactly when either is |
| Values.OrEmpty | services/dbService.ts:89 | `fileName \|\| ''` on a nullable string (`Text.IncludesAcrossSpace` and `Media.ClassifyMedia` state what the sticker test makes of it) |
| Media.TableKeysAreLowerAlphanumeric | services/dbService.ts:13-42 | every key of the MIME table is a non-empty run of lower-case ASCII letters and digits |
| Media.TableValuesAreNonEmpty | services/dbService.ts:13-42 | no MIME table entry is the empty string |
| Text.Trim | services/dbService.ts:46 | `trim` yields a string no longer than the input that neither starts nor ends with ECMAScript whitespace, and leaves an already clean string unchanged; with `Text.TrimIsSlice`, what it drops at each end is whitespace |
| Text.TrimIsSlice | services/dbService.ts:46 | what `trim` keeps is the contiguous piece of the input that starts where the leading whitespace ends, and what it drops before and after that piece is whitespace, so the result is fully determined |
| Text.TrimDropsWhitespace | services/dbService.ts:46 | the leading and the trailing part `trim` drops are all whitespace |
| Text.TrimEndDropsWhitespaceAfterStart | services/dbService.ts:46 | everything in the input after the piece `trim` keeps is whitespace |
| Text.TrimEmptyIffBlank | services/dbService.ts:46-47 | `trim` gives the empty string exactly for an all-whitespace string |
| Text.TrimIdempotent | services/dbService.ts:46 | trimming twice equals trimming once |
| Media.ToNonEmptyString | services/dbService.ts:44-48 | null exactly for a non-string or an all-whitespace string; otherwise the trimmed string, which is non-empty |
| Media.ToNonEmptyStringIdempotent | services/dbService.ts:44-48 | applying `toNonEmptyString` to its own output changes nothing |
| Media.ToNonEmptyStringOfClean | services/dbService.ts:44-48 | a non-empty string that does not start or end with whitespace is returned unchanged |
| Text.SplitOnSeparators | services/dbService.ts:52 | `split(/[\\/]/)` always yields at least one piece |
| Text.SplitPiecesHaveNoSeparator | services/dbService.ts:52 | no piece of the split contains `/` or `\` |
| Text.SplitJoinRoundTrip | services/dbService.ts:52 | joining the pieces with `/` gives back the input with each `\` turned into `/` |
| Text.JoinAfterSeparator | services/dbService.ts:52 | a separator appended to the input adds an empty last piece, and the round trip still holds |
| Text.JoinAfterPlain | services/dbService.ts:52 | any other character appended to the input extends the last piece, and the round trip still holds |
| Text.JoinExtendLast | services/dbService.ts:52 | growing the last piece by one character grows the joined path by that character |
| Text.LastSeparatorIndexIsLast | services/dbService.ts:52-53 | nothing after the last separator index is a separator, and the index is -1 exactly when there is no separator |
| Text.SplitLastPiece | services/dbService.ts:52-53 | the last piece of the split is the text after the last separator |
| Media.BasenameFromPath | services/dbService.ts:50-55 | null exactly for a null or empty path; otherwise a non-empty string |
| Media.BasenameIsLastSegment | services/dbService.ts:50-55 | the basename of a non-empty path is the trimmed segment after its last separator, which has no separator, or the path itself when that segment is blank |
| Media.BasenameOfLastPiece | services/dbService.ts:52-54 | the basename of a non-empty path is the trimmed last piece of its split, or the path when that piece is blank |
| Media.TrailingSeparatorGivesPath | services/dbService.ts:53-54 | a path ending in `/` or `\` is its own basename |
| Text.TrimmedSegmentKeepsCleanTail | services/dbService.ts:52-53 | characters added at the end, with no separator and no whitespace at either end, survive whole into the trimmed last segment |
| Media.BasenameKeepsCleanTail | services/dbService.ts:50-55 | such a tail appended to any path ends the basename |
| Text.LastIndexOf | services/dbService.ts:61 | `lastIndexOf(c)` is -1 exactly when `c` is absent; otherwise it points at a `c` with none after it |
| Media.ExtensionOfBasename | services/dbService.ts:61-63 | null exactly when the basename has no `.` or ends with one; otherwise the lower-cased suffix after the last `.`, which is non-empty, dot-free and lower case |
| Media.ExtensionFromValue | services/dbService.ts:57-64 | null for a null or empty value; otherwise the extension of the value's basename |
| Media.ExtensionOfWordSuffix | services/dbService.ts:57-64 | `stem + "." + e`, for any stem and an alphanumeric `e`, has the extension `e` lower-cased |
| Media.BasenameOfPlainName | services/dbService.ts:50-55 | a name without separators and clean at both ends is its own basename |
| Media.UnknownFileNameHasNoExtension | services/dbService.ts:57-64 | the placeholder `arquivo-desconhecido` has no extension |
| Media.UnknownFileNameIsNoSticker | services/dbService.ts:89-91 | the placeholder name, with no path and a message type other than 20, gives no sticker hint |
| Media.LookupExtension | services/dbService.ts:74 | `extensionFromValue(fileName) ?? extensionFromValue(filePath)` (`Media.ResolveMimeFromName` and `Media.ResolveMimeFromPath` state which of the two decides) |
| Media.ExplicitMime | services/dbService.ts:71-72 | no explicit MIME type exactly when the column is missing or blank; otherwise the trimmed, non-empty value |
| Media.MimeForExtension | services/dbService.ts:75-79 | the MIME type from the table, or the unknown sentinel, is never empty |
| Media.ResolveMime | services/dbService.ts:66-80 | the result is never empty; a non-blank explicit MIME wins, trimmed, whatever the name and path; otherwise the result is the sentinel or a value of the table |
| Media.ResolveMimeFromName | services/dbService.ts:74-76 | without an explicit MIME, a name with an extension decides alone, even one not in the table; the path is never consulted |
| Media.ResolveMimeFromPath | services/dbService.ts:74-76 | without an explicit MIME or a name extension, the path's extension decides |
| Media.ResolveMimeKnownExtension | services/dbService.ts:57-79 | a name whose extension is a table key in any letter case resolves to that key's MIME type |
| Media.UpperCaseJpegExample | services/dbService.ts:57-79 | `IMG-20240101.JPG` with no MIME type resolves to `image/jpeg` |
| Text.IncludesAcrossSpace | services/dbService.ts:89-91 | a needle without spaces occurs in `a + " " + b` exactly when it occurs in `a` or in `b` |
| Text.ToLower | services/dbService.ts:63 | `toLowerCase` on ASCII letters: same length, no capital `A`-`Z` left, and every character that is not a capital unchanged |
| Text.StartsWith | services/dbService.ts:95-105 | `startsWith(t)`: `t` is a prefix of `s` (a predicate; `Media.ClassifyByMimeFamily` states what the prefix tests decide) |
| Text.Includes | services/dbService.ts:91 | `includes(t)`: `t` starts at some position of `s` (a predicate; `Text.IncludesAcrossSpace` and `Media.NotIncludedWithoutChar` state its properties) |
| Media.NotIncludedWithoutChar | services/dbService.ts:91 | a string lacking one of the needle's characters does not include the needle |
| Records.MediaKind.Label | services/dbService.ts:92-118 | the fixed label of each kind: `Imagem`, `Vídeo`, `Áudio`, `Documento`, `Sticker`, `Desconhecido` (`Media.ClassifyMedia` states that each classification carries its kind's label) |
| Media.StickerHint | services/dbService.ts:89-91 | the sticker test: `sticker` in the lower-cased name or path, or message type 20 (`Media.ClassifyMedia` states that it decides the sticker kind exactly) |
| Media.LegacyKind | services/dbService.ts:108-118 | types 1, 2 and 3 stand for image, audio and video, anything else for unknown (`Media.ClassifyByMimeFamily` states when it decides) |
| Media.UnknownMimeHasNoFamily | services/dbService.ts:95-105 | `unknown/unknown` matches none of the MIME families `classifyMedia` tests |
| Media.ClassifyMedia | services/dbService.ts:82-119 | the MIME type passes through unchanged; the label is the kind's own; the kind is a sticker exactly when `sticker` occurs in the lower-cased name or path, or the message type is 20 |
| Media.ClassifyByMimeFamily | services/dbService.ts:94-118 | without a sticker hint, an `image/`, `video/`, `audio/`, `application/` or `text/` MIME type (in any case) gives image, video, audio or document; only when none applies does the legacy type 1, 2 or 3 decide, and anything else is unknown |
| Media.ClassifyIgnoresTypeForKnownMime | services/dbService.ts:94-118 | with a recognised MIME family and no type 20, the message type has no effect |
| Media.StickerExample | services/dbService.ts:91-93 | a file named `Sticker-01.webp` is a sticker despite its `image/webp` type and its message type 1 |
| SqlColumns.ResolvedUser | services/dbService.ts:142 | `COALESCE(jid_phone.user, jid.user)`: the phone user when present, else the LID's own user (`DbService.PreferredRowConversation` states what the chat's JID becomes) |
| SqlColumns.SqlTrim | services/dbService.ts:149 | SQLite `trim`: no longer than its input (`SqlColumns.SqlTrimEmptyIffSpaces` states when it is empty) |
| SqlColumns.ResolvedSubject | services/dbService.ts:143-154 | the `COALESCE(chat.subject, CASE … END)` column (`SqlColumns.ResolvedSubjectSpec` states its contract) |
| SqlColumns.UsableDisplayName | services/dbService.ts:148-150 | the `CASE WHEN` test: a display name present, not blank to SQLite `trim` and without `∙` (`SqlColumns.ResolvedSubjectSpec` states what it admits) |
| SqlColumns.SqlTrimEmptyIffSpaces | services/dbService.ts:149 | SQLite `trim(x) <> ''` holds exactly when `x` has a character other than a space |
| SqlColumns.ResolvedSubjectSpec | services/dbService.ts:143-154 | the chat subject when present; otherwise the display name, and only one that is not blank and has no `∙`; NULL exactly when neither is available |
| SqlColumns.MaskedNameIsNotASubject | services/dbService.ts:146-151 | the masked display name `+55∙∙∙1234` is never used as a subject |
| SqlColumns.BlankNameIsNotASubject | services/dbService.ts:149 | a display name of spaces only is never used as a subject |
| Engine.Database.Exec | services/dbService.ts:184 | `exec` returns the database's answer to the query and records that the query ran |
| DbService.MapConversationRow | services/dbService.ts:190-195 | id, subject and timestamp are copied over; the JID is `row[1]` when truthy, else `Unknown`, so it is always truthy |
| DbService.MapConversations | services/dbService.ts:190-195 | the `.map` of the conversation rows (`DbService.ConversationsFromSpec` states one conversation per row, in row order) |
| DbService.PreferredRowConversation | services/dbService.ts:139-154 | a chat read by the preferred query gets the phone number, else its own user part, else `Unknown`, and the resolved subject |
| DbService.LegacyRowConversation | services/dbService.ts:171-176 | a chat read by the legacy query gets its user part, else `Unknown`, and its own subject |
| SqlColumns.MappedQueryRow | services/dbService.ts:140-155 | the four columns of the preferred query's SELECT list (`DbService.PreferredRowConversation` states the chat built from them) |
| SqlColumns.LegacyQueryRow | services/dbService.ts:172-176 | the four columns of the legacy query's SELECT list (`DbService.LegacyRowConversation` states the chat built from them) |
| DbService.FirstSetConversations | services/dbService.ts:185-197 | the conversations of the first result set, none when there is no set (`DbService.ConversationsFromSpec` states the result) |
| DbService.ConversationsFrom | services/dbService.ts:183-215 | the fallback policy of `getConversations` on the two outcomes (`DbService.ConversationsFromSpec` states its contract) |
| DbService.ConversationsFromSpec | services/dbService.ts:183-215 | failure exactly when both queries throw, with the fixed message; when the preferred query answers, the legacy query has no influence (zero result sets included); the chats are one per row of the first answering result set |
| DbService.Service.constructor | services/dbService.ts:9 | no database before initialisation |
| DbService.Service.Attach | services/dbService.ts:130 | the opened database becomes the one queried |
| DbService.Service.GetConversations | services/dbService.ts:133-216 | no database gives an empty list and runs nothing; otherwise the result is the policy's, the preferred query always runs, and the legacy query runs exactly when the preferred one throws |
| DbService.ResolvedFileName | services/dbService.ts:257 | the media name when given, else the basename of the path, else `arquivo-desconhecido`; never empty |
| DbService.MessageTypeOf | services/dbService.ts:251 | `typeof row[4] === 'number' ? row[4] : null` (`DbService.MapMessageRowSpec` and `DbService.LegacyTypedRow` state how the type decides media and kind) |
| DbService.HasMedia | services/dbService.ts:266-268 | media metadata present, or message type 1, 2 or 3 (`DbService.MapMessageRowSpec` states that `has_media` is exactly this) |
| DbService.RowMime | services/dbService.ts:256-258 | `resolveMime` of the row's MIME column, resolved name and path (`DbService.MapMessageRowSpec` states the result) |
| DbService.MessageFromRow | services/dbService.ts:259-283 | the message record built from a row and its resolved MIME type (`DbService.MapMessageRowSpec` states its fields) |
| DbService.MapMessageRow | services/dbService.ts:249-284 | the per-row callback of `getMessages` (`DbService.MapMessageRowSpec` states its contract) |
| DbService.MapMessageRowSpec | services/dbService.ts:250-282 | `from_me` exactly for the number 1; trimmed-or-null texts; media exactly when a name, path or MIME column is non-blank or the type is 1, 2 or 3; with media, the file name is `ResolvedFileName`'s (non-empty), the MIME type is `ResolveMime` of the MIME column, that name and the path (non-empty, the trimmed column when given) duplicated in `media_type`, the kind is `ClassifyMedia`'s for that MIME type, name, path and message type, with its own label, and the path is the trimmed path; without media, all six media fields null |
| DbService.LegacyTypedRow | services/dbService.ts:251-268 | a row with no media name, path or MIME column and message type 1, 2 or 3 has media, named `arquivo-desconhecido`, with no path, MIME type `unknown/unknown` and the kind its type stands for |
| DbService.LegacyAudioExample | services/dbService.ts:251-268 | a type-2 row without media columns is an audio message labelled `Áudio` |
| DbService.MessageFileNameFallback | services/dbService.ts:257 | a media message without a name is named after its path's basename, or `arquivo-desconhecido` without a path |
| DbService.MapMessageRows | services/dbService.ts:248-284 | the `.map` of the message rows; its length and element facts only spare the proofs an unfolding (`DbService.MessagesOfSpec` states one message per row, in reversed row order) |
| DbService.Reversed | services/dbService.ts:285 | the reference definition of `.reverse()`: same length (`DbService.ReversedAt` states element `i` is element `n - 1 - i`) |
| DbService.ReversedAt | services/dbService.ts:285 | element `i` of the reversal is element `n - 1 - i` of the input |
| DbService.ReversedTwice | services/dbService.ts:285 | reversing twice restores the sequence |
| DbService.ReverseInPlace | services/dbService.ts:285 | the in-place swap loop leaves the array holding the reversal of its old contents |
| DbService.MapAndReverse | services/dbService.ts:248-285 | the result is the mapped rows reversed |
| DbService.MessagesOf | services/dbService.ts:244-291 | the messages `getMessages` returns for an outcome of its query (`DbService.MessagesOfSpec` states its contract) |
| DbService.MessagesOfSpec | services/dbService.ts:244-290 | a throwing query, or one that returns no result set, gives no message; otherwise one message per row, with message `i` mapped from row `n - 1 - i` |
| DbService.Service.GetMessages | services/dbService.ts:218-292 | no database gives an empty list and runs nothing; otherwise exactly the message query runs and the result is as `MessagesOfSpec` states |
| AsWritten.LookupAsWritten | services/dbService.ts:75-76 | `MIME_BY_EXTENSION[extension]` as a property read: an own entry, an inherited member for `constructor` and `__proto__`, or nothing (`AsWritten.ResolveMimeAsWrittenAgrees` states what that does to `resolveMime`) |
| AsWritten.ResolveMimeAsWritten | services/dbService.ts:66-80 | `resolveMime` with the property read as written (`AsWritten.ResolveMimeAsWrittenAgrees` states how it differs from the model) |
| AsWritten.InheritedKeysAreNotOwn | services/dbService.ts:13-42 | neither inherited name is a key of the table |
| AsWritten.ResolveMimeAsWrittenAgrees | services/dbService.ts:66-80 | the code's `resolveMime` returns a non-string exactly when there is no explicit MIME and the extension is an inherited name; otherwise it agrees with `Media.ResolveMime` |
| AsWritten.LookupAgrees | services/dbService.ts:75-76 | the property read finds an inherited member exactly for `constructor` and `__proto__`, and otherwise agrees with the own-key lookup |
| AsWritten.MapOrThrowSpec | services/dbService.ts:248-284 | a `.map` whose callback may throw succeeds exactly when every element does, and then holds their results in order |
| AsWritten.MapOrThrow | services/dbService.ts:248-284 | a `.map` whose callback may throw: when it succeeds, one result per element (`AsWritten.MapOrThrowSpec` states exactly when it succeeds and what it holds) |
| AsWritten.MapMessageRowAsWritten | services/dbService.ts:249-284 | the per-row callback as written, none where `classifyMedia` throws (`AsWritten.MapRowAsWrittenAgrees` and `AsWritten.ConstructorRowThrows` state its behaviour) |
| AsWritten.MapRowAsWrittenAgrees | services/dbService.ts:249-284 | a row the code maps without throwing is mapped as the model maps it |
| AsWritten.MapMessageRowsAsWritten | services/dbService.ts:248-284 | `rows.map(mapRow)` as written, none when a row throws (`AsWritten.MapRowsAsWrittenAgrees` states its contract) |
| AsWritten.MapRowsAsWrittenAgrees | services/dbService.ts:248-284 | where no row throws, the code maps every row as the model does |
| AsWritten.MessagesOfAsWritten | services/dbService.ts:244-291 | `getMessages` as written: a row that throws empties the list (`AsWritten.MessagesAsWrittenAgree` states its contract) |
| AsWritten.MessagesAsWrittenAgree | services/dbService.ts:244-291 | the code returns the model's messages, or none at all when some row throws |
| AsWritten.ThrowingRowEmptiesChat | services/dbService.ts:244-291 | as written, a chat whose one row throws comes back empty |
| AsWritten.OneRowOneMessage | services/dbService.ts:244-291 | in the model, a chat of one row has one message |
| AsWritten.ConstructorRowThrows | services/dbService.ts:74-88 | mapping a row named `clip.constructor` with no MIME type and no path throws |
| AsWritten.InheritedExtensionEmptiesChat | services/dbService.ts:75-76 | a chat whose one message is an attachment named `clip.constructor` comes back empty as written, but with one message in the model |

## Findings

| source | as written | input that shows it | evidently intended | confidence | as-written member | corrected member |
|---|---|---|---|---|---|---|
| services/dbService.ts:75-76 | `MIME_BY_EXTENSION[extension]` is a property read on a plain object literal. It also finds `Object.prototype` members, and `constructor` and `__proto__` are lower case, so an extension can be one of them. The truthy non-string value is returned as the MIME type. `mime.toLowerCase()` at line 88 then throws, and the `catch` at lines 288-290 returns `[]` for the whole chat | a message row with `media_name` `clip.constructor` and no MIME type | only the table's own keys are looked up; an unknown extension gives `unknown/unknown` and the chat keeps its messages | high; not executed | AsWritten.InheritedExtensionEmptiesChat | DbService.MessagesOfSpec |

The corrected lookup is `Media.MimeForExtension`, which tests `extension in
MimeByExtension` (an own-key test). `Media.ResolveMime`, and so the whole
`DbService` module, uses it. `DbService.MessagesOfSpec` proves the corrected
service never drops a message.

The code also differs from one natural reading of it. A message can have
media while its `media_file_path` is null: this happens for a message of
type 1, 2 or 3, or one with only a name or a MIME type, and no path column.
The other five media fields are then non-null. The model follows the code
(`DbService.MapMessageRowSpec` states `media_file_path` equals the trimmed
path column).

## Left out

- `initDatabase`: loading sql.js from a CDN and opening the file are foreign asynchronous calls. Only its last step, storing the opened database, is modelled (`Service.Attach`).
- The SQL engine: joins, `ORDER BY`, `LIMIT` and the splicing of `limit` and `chatRowId` into the query text. `Database.reply` stands in for the engine and is any function from the query (carrying those two numbers) to an outcome. The returned rows are arbitrary. The column expressions of the preferred conversation query are modelled separately, in `SqlColumns`.
- `console.error` logging on the error paths: output only.
- `new Date(row[3])`: the message timestamp stays the raw cell.
- `getDbInstance`: it only returns the handle.
- The thrown `Error` of `getConversations` is modelled as a `Failure` carrying its message, not as an exception.
- Text.ToLower: only ASCII letters are lowered. JavaScript's full Unicode `toLowerCase` (for example the Kelvin sign lowering to `k`) is not modelled, so `sticker` spelled with such characters is not detected as a sticker hint.
- Text.Trim: strips the ECMAScript whitespace and line-terminator set as a fixed list of code points. Unicode version differences are not modelled.
- JavaScript numbers are modelled as unbounded integers. Message types and `from_me` are compared as integers, and fractional or special floating-point values are not part of the model.
- `Conversation.messageCount` and `DbStats` (types.ts): nothing in the modelled file computes them.
- A blob or number in a name, path or MIME column: `toNonEmptyString` discards it as a non-string, which the model does. Its display is not further modelled.
