/** The pure helpers of services/dbService.ts: trim-or-null, basename and
    extension extraction, MIME resolution and media classification. */
module Media {
  import opened Values
  import opened Text
  import opened Records

  /** The file name a media message gets when it has neither a name nor a path. */
  const UnknownFileName: string := "arquivo-desconhecido"

  /** The MIME type reported when nothing better is known. */
  const UnknownMime: string := "unknown/unknown"

  /** `MIME_BY_EXTENSION`: 28 lower-case extensions and their MIME types. */
  const MimeByExtension: map<string, string> := map[
    "jpg" := "image/jpeg",
    "jpeg" := "image/jpeg",
    "png" := "image/png",
    "webp" := "image/webp",
    "gif" := "image/gif",
    "heic" := "image/heic",
    "heif" := "image/heif",
    "mp4" := "video/mp4",
    "mov" := "video/quicktime",
    "m4v" := "video/x-m4v",
    "webm" := "video/webm",
    "3gp" := "video/3gpp",
    "opus" := "audio/ogg; codecs=opus",
    "ogg" := "audio/ogg",
    "mp3" := "audio/mpeg",
    "m4a" := "audio/mp4",
    "wav" := "audio/wav",
    "aac" := "audio/aac",
    "pdf" := "application/pdf",
    "doc" := "application/msword",
    "docx" := "application/vnd.openxmlformats-officedocument.wordprocessingml.document",
    "xls" := "application/vnd.ms-excel",
    "xlsx" := "application/vnd.openxmlformats-officedocument.spreadsheetml.sheet",
    "ppt" := "application/vnd.ms-powerpoint",
    "pptx" := "application/vnd.openxmlformats-officedocument.presentationml.presentation",
    "txt" := "text/plain",
    "csv" := "text/csv",
    "vcf" := "text/vcard"
  ]

  predicate IsAsciiAlphanumeric(c: char) {
    'a' <= c <= 'z' || 'A' <= c <= 'Z' || '0' <= c <= '9'
  }

  predicate IsLowerAlphanumeric(s: string) {
    forall i :: 0 <= i < |s| ==> 'a' <= s[i] <= 'z' || '0' <= s[i] <= '9'
  }

  /** Every key of the table is a non-empty run of lower-case letters and digits. */
  lemma TableKeysAreLowerAlphanumeric()
    ensures forall k :: k in MimeByExtension ==> k != "" && IsLowerAlphanumeric(k)
  {
  }

  /** No entry of the table maps to the empty string. */
  lemma TableValuesAreNonEmpty()
    ensures forall k :: k in MimeByExtension ==> MimeByExtension[k] != ""
  {
  }

  /** `toNonEmptyString`: the trimmed string, or null for a non-string or a
      string that is all whitespace. */
  function ToNonEmptyString(value: Cell): (r: Option<string>)
    ensures r.None? <==> !value.Str? || IsBlank(value.s)
    ensures r.Some? ==> r.value == Trim(value.s) && r.value != ""
  {
    if !value.Str? then None
    else
      TrimEmptyIffBlank(value.s);
      var trimmed := Trim(value.s);
      if |trimmed| > 0 then Some(trimmed) else None
  }

  /** A non-empty string clean at both ends comes back unchanged. */
  lemma ToNonEmptyStringOfClean(s: string)
    requires s != [] && !IsJsWhitespace(s[0]) && !IsJsWhitespace(s[|s| - 1])
    ensures ToNonEmptyString(Str(s)) == Some(s)
  {
  }

  /** What `toNonEmptyString` returns is a fixed point of it. */
  lemma ToNonEmptyStringIdempotent(value: Cell)
    requires ToNonEmptyString(value).Some?
    ensures ToNonEmptyString(Str(ToNonEmptyString(value).value)) == ToNonEmptyString(value)
  {
    TrimIdempotent(value.s);
  }

  /** `basenameFromPath`: null for a null or empty path, and never empty
      otherwise. */
  function BasenameFromPath(path: Option<string>): (r: Option<string>)
    ensures r.None? <==> path.None? || path.value == ""
    ensures r.Some? ==> r.value != ""
  {
    if path.None? || path.value == "" then None
    else
      var parts := SplitOnSeparators(path.value);
      var last := Trim(parts[|parts| - 1]);
      if last != "" then Some(last) else path
  }

  /** The basename of a non-empty path is the trimmed text after its last `/`
      or `\`, which holds no separator, or the path itself when that text is
      blank. */
  lemma BasenameIsLastSegment(path: string)
    requires path != ""
    ensures var segment := Trim(path[LastSeparatorIndex(path) + 1..]);
      BasenameFromPath(Some(path)).value == (if segment != "" then segment else path)
      && (segment != "" ==> HasNoSeparator(segment))
  {
    var parts := SplitOnSeparators(path);
    var last := parts[|parts| - 1];
    BasenameOfLastPiece(path);
    SplitLastPiece(path);
    assert last == path[LastSeparatorIndex(path) + 1..];
    LastSeparatorIndexIsLast(path);
    TrimKeepsNoSeparator(last);
  }

  /** The basename is the trimmed last piece of the split, or the path. */
  lemma BasenameOfLastPiece(path: string)
    requires path != ""
    ensures var parts := SplitOnSeparators(path);
      var segment := Trim(parts[|parts| - 1]);
      BasenameFromPath(Some(path)).value == (if segment != "" then segment else path)
  {
  }

  /** A path ending in a separator has a blank last segment, so its basename
      is the whole path. */
  lemma TrailingSeparatorGivesPath(path: string)
    requires path != [] && IsPathSeparator(path[|path| - 1])
    ensures BasenameFromPath(Some(path)) == Some(path)
  {
    var k := LastSeparatorIndex(path);
    assert k == |path| - 1;
    assert path[k + 1..] == [];
    BasenameIsLastSegment(path);
  }

  /** The extension part of `extensionFromValue`, once the basename is
      known: absent exactly when the basename has no `.` or ends with one;
      otherwise the lower-cased suffix that follows its last `.`, which is
      non-empty and has no `.` of its own. */
  function ExtensionOfBasename(base: string): (r: Option<string>)
    ensures r.None? <==> '.' !in base || base[|base| - 1] == '.'
    ensures r.Some? ==>
      |r.value| < |base| && base[|base| - |r.value| - 1] == '.'
      && ToLower(base[|base| - |r.value|..]) == r.value
    ensures r.Some? ==> r.value != "" && '.' !in r.value && ToLower(r.value) == r.value
  {
    var dotIndex := LastIndexOf(base, '.');
    if dotIndex == -1 || dotIndex == |base| - 1 then None
    else
      var raw := base[dotIndex + 1..];
      ToLowerKeepsDots(raw);
      ToLowerIdempotent(raw);
      Some(ToLower(raw))
  }

  /** `extensionFromValue`: null for a null or empty value, else the
      extension of its basename. */
  function ExtensionFromValue(value: Option<string>): (r: Option<string>)
    ensures value.None? || value.value == "" ==> r.None?
    ensures value.Some? && value.value != "" ==> r == ExtensionOfBasename(BasenameFromPath(value).value)
  {
    if value.None? || value.value == "" then None
    else
      var base := BasenameFromPath(value);
      if base.None? || base.value == "" then None
      else ExtensionOfBasename(base.value)
  }

  lemma ToLowerKeepsDots(s: string)
    ensures '.' in ToLower(s) <==> '.' in s
  {
    if '.' in ToLower(s) {
      var j :| 0 <= j < |s| && ToLower(s)[j] == '.';
    }
    if '.' in s {
      var j :| 0 <= j < |s| && s[j] == '.';
      assert ToLower(s)[j] == '.';
    }
  }

  /** A string of ASCII letters and digits, one character at least: the only
      kind of text the table has as keys. */
  predicate IsAlphanumericWord(e: string) {
    e != "" && forall i :: 0 <= i < |e| ==> IsAsciiAlphanumeric(e[i])
  }

  /** A tail without separators and clean at both ends survives into the
      basename of `stem + tail`. */
  lemma BasenameKeepsCleanTail(stem: string, tail: string)
    requires tail != [] && HasNoSeparator(tail)
    requires !IsJsWhitespace(tail[0]) && !IsJsWhitespace(tail[|tail| - 1])
    ensures var base := BasenameFromPath(Some(stem + tail)).value;
      |base| >= |tail| && base[|base| - |tail|..] == tail
  {
    var path := stem + tail;
    BasenameIsLastSegment(path);
    TrimmedSegmentKeepsCleanTail(stem, tail);
    var seg := TrimStart(stem[LastSeparatorIndex(stem) + 1..]) + tail;
    var segment := Trim(path[LastSeparatorIndex(path) + 1..]);
    assert segment == seg;
    assert BasenameFromPath(Some(path)).value == seg;
    assert seg[|seg| - |tail|..] == tail;
  }

  /** The basename of `stem + "." + e`, for a word `e`, ends with `"." + e`. */
  lemma BasenameKeepsWordTail(stem: string, e: string)
    requires IsAlphanumericWord(e)
    ensures var base := BasenameFromPath(Some(stem + "." + e)).value;
      |base| > |e| && base[|base| - |e| - 1..] == "." + e
  {
    var tail := "." + e;
    assert stem + "." + e == stem + tail;
    assert tail[|tail| - 1] == e[|e| - 1];
    BasenameKeepsCleanTail(stem, tail);
  }

  /** A basename ending in `"." + e`, for a word `e`, has the extension `e`
      lower-cased. */
  lemma ExtensionOfWordTail(base: string, e: string)
    requires IsAlphanumericWord(e)
    requires |base| > |e| && base[|base| - |e| - 1..] == "." + e
    ensures ExtensionOfBasename(base) == Some(ToLower(e))
  {
    var d := |base| - |e| - 1;
    assert base == (base[..d] + ".") + e;
    LastIndexOfIgnoresTail(base[..d] + ".", e, '.');
    assert base[d + 1..] == e;
  }

  /** `stem + "." + e` has the extension `e` lower-cased, whatever `stem` is. */
  lemma ExtensionOfWordSuffix(stem: string, e: string)
    requires IsAlphanumericWord(e)
    ensures ExtensionFromValue(Some(stem + "." + e)) == Some(ToLower(e))
  {
    BasenameKeepsWordTail(stem, e);
    ExtensionOfWordTail(BasenameFromPath(Some(stem + "." + e)).value, e);
  }

  /** A name clean at both ends and free of separators is its own basename. */
  lemma BasenameOfPlainName(s: string)
    requires s != [] && HasNoSeparator(s)
    requires !IsJsWhitespace(s[0]) && !IsJsWhitespace(s[|s| - 1])
    ensures BasenameFromPath(Some(s)) == Some(s)
  {
    LastSeparatorIndexIsLast(s);
    assert s[LastSeparatorIndex(s) + 1..] == s;
    BasenameIsLastSegment(s);
  }

  /** The placeholder file name is lower-case letters and hyphens, none of them a `k`. */
  lemma UnknownFileNameLetters()
    ensures forall i :: 0 <= i < |UnknownFileName| ==>
      (UnknownFileName[i] == '-' || 'a' <= UnknownFileName[i] <= 'z') && UnknownFileName[i] != 'k'
  {
  }

  /** The placeholder file name has no extension. */
  lemma UnknownFileNameHasNoExtension()
    ensures ExtensionFromValue(Some(UnknownFileName)) == None
  {
    UnknownFileNameLetters();
    BasenameOfPlainName(UnknownFileName);
  }

  /** `extensionFromValue(fileName) ?? extensionFromValue(filePath)` */
  function LookupExtension(fileName: Option<string>, filePath: Option<string>): Option<string> {
    if ExtensionFromValue(fileName).Some? then ExtensionFromValue(fileName) else ExtensionFromValue(filePath)
  }

  /** The MIME type `toNonEmptyString` makes of an explicit value: none for
      a missing or blank one, otherwise the value trimmed. */
  function ExplicitMime(rawMimeType: Option<string>): (r: Option<string>)
    ensures r.None? <==> rawMimeType.None? || IsBlank(rawMimeType.value)
    ensures r.Some? ==> r.value == Trim(rawMimeType.value) && r.value != ""
  {
    ToNonEmptyString(StrOrNull(rawMimeType))
  }

  /** The table's MIME type for an extension, or the unknown sentinel. */
  function MimeForExtension(extension: Option<string>): (r: string)
    ensures r != ""
  {
    TableValuesAreNonEmpty();
    if extension.Some? && extension.value in MimeByExtension then MimeByExtension[extension.value]
    else UnknownMime
  }

  /** `resolveMime`: the explicit MIME type, trimmed, when it is not blank;
      otherwise what the table says of the extension of the file name, or of
      the path when the name has none; otherwise `unknown/unknown`. Never
      empty, and always the explicit value, a table entry or the sentinel. */
  function ResolveMime(rawMimeType: Option<string>, fileName: Option<string>, filePath: Option<string>): (r: string)
    ensures r != ""
    ensures ExplicitMime(rawMimeType).Some? ==> r == Trim(rawMimeType.value)
    ensures ExplicitMime(rawMimeType).None? && r != UnknownMime ==>
      exists e :: e in MimeByExtension && MimeByExtension[e] == r
  {
    var mime := ExplicitMime(rawMimeType);
    if mime.Some? then mime.value
    else MimeForExtension(LookupExtension(fileName, filePath))
  }

  /** A file name with an extension decides the MIME type alone: the path is
      not consulted, even when the extension is not in the table. */
  lemma ResolveMimeFromName(rawMimeType: Option<string>, fileName: Option<string>, filePath: Option<string>)
    requires ExplicitMime(rawMimeType).None? && ExtensionFromValue(fileName).Some?
    ensures ResolveMime(rawMimeType, fileName, filePath) == MimeForExtension(ExtensionFromValue(fileName))
    ensures forall otherPath :: ResolveMime(rawMimeType, fileName, otherPath) == ResolveMime(rawMimeType, fileName, filePath)
  {
  }

  /** A file name without an extension hands the decision to the path. */
  lemma ResolveMimeFromPath(rawMimeType: Option<string>, fileName: Option<string>, filePath: Option<string>)
    requires ExplicitMime(rawMimeType).None? && ExtensionFromValue(fileName).None?
    ensures ResolveMime(rawMimeType, fileName, filePath) == MimeForExtension(ExtensionFromValue(filePath))
  {
  }

  /** Any file name whose extension is a table key in any letter case
      resolves to that key's MIME type when no explicit type is given. */
  lemma ResolveMimeKnownExtension(stem: string, e: string, filePath: Option<string>)
    requires ToLower(e) in MimeByExtension
    ensures ResolveMime(None, Some(stem + "." + e), filePath) == MimeByExtension[ToLower(e)]
  {
    TableKeysAreLowerAlphanumeric();
    var k := ToLower(e);
    assert IsLowerAlphanumeric(k);
    forall i | 0 <= i < |e| ensures IsAsciiAlphanumeric(e[i]) {
      assert k[i] == LowerChar(e[i]);
    }
    ExtensionOfWordSuffix(stem, e);
  }

  /** What `classifyMedia` returns: a kind, its display label and the MIME type. */
  datatype Classification = Classification(kind: MediaKind, typeLabel: string, mime: string)

  /** The sticker test of `classifyMedia`: `sticker` in the lower-cased name
      or path, or WhatsApp message type 20. */
  predicate StickerHint(fileName: Option<string>, filePath: Option<string>, messageType: Option<int>) {
    Includes(ToLower(OrEmpty(fileName)), "sticker")
    || Includes(ToLower(OrEmpty(filePath)), "sticker")
    || messageType == Some(20)
  }

  /** A lower-cased MIME type whose family `classifyMedia` recognises. */
  predicate HasKnownMimePrefix(mimeLower: string) {
    StartsWith(mimeLower, "image/") || StartsWith(mimeLower, "video/") || StartsWith(mimeLower, "audio/")
    || StartsWith(mimeLower, "application/") || StartsWith(mimeLower, "text/")
  }

  /** The kind the legacy WhatsApp message types stand for: 1 image, 2 audio, 3 video. */
  function LegacyKind(messageType: Option<int>): MediaKind {
    if messageType == Some(1) then Image
    else if messageType == Some(2) then Audio
    else if messageType == Some(3) then Video
    else Unknown
  }

  /** `classifyMedia`. A sticker hint wins over everything; then the MIME
      family decides; then the legacy message type; otherwise the kind is
      unknown. The label is always the kind's own, the MIME type passes
      through unchanged, and the kind is a sticker exactly when the name,
      the path or the message type says so. */
  function ClassifyMedia(mime: string, fileName: Option<string>, filePath: Option<string>, messageType: Option<int>): (r: Classification)
    ensures r.mime == mime && r.typeLabel == r.kind.Label()
    ensures r.kind == Sticker <==> StickerHint(fileName, filePath, messageType)
  {
    var mimeLower := ToLower(mime);
    var name := OrEmpty(fileName);
    var path := OrEmpty(filePath);
    var nameOrPath := ToLower(name + " " + path);
    assert nameOrPath == ToLower(name) + " " + ToLower(path) by {
      ToLowerAppend(name + " ", path);
      ToLowerAppend(name, " ");
    }
    IncludesAcrossSpace(ToLower(name), ToLower(path), "sticker");
    if Includes(nameOrPath, "sticker") || messageType == Some(20) then Classification(Sticker, "Sticker", mime)
    else if StartsWith(mimeLower, "image/") then Classification(Image, "Imagem", mime)
    else if StartsWith(mimeLower, "video/") then Classification(Video, "Vídeo", mime)
    else if StartsWith(mimeLower, "audio/") then Classification(Audio, "Áudio", mime)
    else if StartsWith(mimeLower, "application/") || StartsWith(mimeLower, "text/") then
      Classification(Document, "Documento", mime)
    else if messageType == Some(1) then Classification(Image, "Imagem", mime)
    else if messageType == Some(2) then Classification(Audio, "Áudio", mime)
    else if messageType == Some(3) then Classification(Video, "Vídeo", mime)
    else Classification(Unknown, "Desconhecido", mime)
  }

  /** A string that starts with `p` shares its first two characters. */
  lemma StartsWithHead(s: string, p: string)
    requires |p| >= 2
    ensures StartsWith(s, p) ==> s[0] == p[0] && s[1] == p[1]
  {
    if StartsWith(s, p) {
      assert s[..|p|][0] == s[0] && s[..|p|][1] == s[1];
    }
  }

  /** A string without the character `t[j]` does not include `t`. */
  lemma {:induction false} NotIncludedWithoutChar(s: string, t: string, j: nat)
    requires j < |t| && forall k :: 0 <= k < |s| ==> s[k] != t[j]
    ensures !Includes(s, t)
  {
    if s != [] {
      NotIncludedWithoutChar(s[1..], t, j);
    }
    if |t| <= |s| {
      assert s[..|t|][j] == s[j];
    }
  }

  /** The placeholder file name is no sticker hint: it has no `k`. */
  lemma UnknownFileNameIsNoSticker(messageType: Option<int>)
    requires messageType != Some(20)
    ensures !StickerHint(Some(UnknownFileName), None, messageType)
  {
    UnknownFileNameLetters();
    ToLowerWithoutCapitals(UnknownFileName);
    assert "sticker"[4] == 'k';
    NotIncludedWithoutChar(UnknownFileName, "sticker", 4);
  }

  /** `unknown/unknown` belongs to no MIME family `classifyMedia` recognises. */
  lemma UnknownMimeHasNoFamily()
    ensures !HasKnownMimePrefix(ToLower(UnknownMime))
  {
    var lower := ToLower(UnknownMime);
    assert lower[0] == 'u';
    StartsWithHead(lower, "image/");
    StartsWithHead(lower, "video/");
    StartsWithHead(lower, "audio/");
    StartsWithHead(lower, "application/");
    StartsWithHead(lower, "text/");
  }

  /** Without a sticker hint, the MIME family decides the kind; each of the
      families is told apart by its first two characters, so at most one
      applies. Only when none does is the legacy message type consulted. */
  lemma ClassifyByMimeFamily(mime: string, fileName: Option<string>, filePath: Option<string>, messageType: Option<int>)
    requires !StickerHint(fileName, filePath, messageType)
    ensures var lower := ToLower(mime);
      var kind := ClassifyMedia(mime, fileName, filePath, messageType).kind;
      (StartsWith(lower, "image/") ==> kind == Image)
      && (StartsWith(lower, "video/") ==> kind == Video)
      && (StartsWith(lower, "audio/") ==> kind == Audio)
      && (StartsWith(lower, "application/") || StartsWith(lower, "text/") ==> kind == Document)
      && (!HasKnownMimePrefix(lower) ==> kind == LegacyKind(messageType))
  {
    var lower := ToLower(mime);
    StartsWithHead(lower, "image/");
    StartsWithHead(lower, "video/");
    StartsWithHead(lower, "audio/");
    StartsWithHead(lower, "application/");
    StartsWithHead(lower, "text/");
  }

  /** Once the MIME family is recognised, the message type matters only
      through the sticker test. */
  lemma ClassifyIgnoresTypeForKnownMime(mime: string, fileName: Option<string>, filePath: Option<string>, t1: Option<int>, t2: Option<int>)
    requires HasKnownMimePrefix(ToLower(mime)) && t1 != Some(20) && t2 != Some(20)
    ensures ClassifyMedia(mime, fileName, filePath, t1) == ClassifyMedia(mime, fileName, filePath, t2)
  {
  }

  /** `IMG-20240101.JPG`, with no MIME type given, is a JPEG image. */
  lemma UpperCaseJpegExample()
    ensures ResolveMime(None, Some("IMG-20240101.JPG"), None) == "image/jpeg"
  {
    assert ToLower("JPG") == "jpg" by {
      assert ToLower("JPG")[0] == 'j' && ToLower("JPG")[1] == 'p' && ToLower("JPG")[2] == 'g';
    }
    assert "jpg" in MimeByExtension && MimeByExtension["jpg"] == "image/jpeg";
    assert "IMG-20240101.JPG" == "IMG-20240101" + "." + "JPG";
    ResolveMimeKnownExtension("IMG-20240101", "JPG", None);
  }

  /** A sticker file wins over its image MIME type and its message type. */
  lemma StickerExample()
    ensures ClassifyMedia("image/webp", Some("Sticker-01.webp"), None, Some(1)).kind == Sticker
  {
    var lower := ToLower("Sticker-01.webp");
    assert lower[..7] == "sticker";
  }
}
