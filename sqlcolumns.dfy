/** The column expressions of the preferred conversation query in
    services/dbService.ts, evaluated on one joined row: `COALESCE` of the
    phone user and the LID user, and the subject that falls back on a LID
    display name only when that name is not blank and not masked. */
module SqlColumns {
  import opened Values

  /** `∙` (U+2219), the glyph WhatsApp uses to mask digits of a number. */
  const MaskGlyph: char := '\U{2219}'

  predicate AllSpaces(s: string) {
    forall i :: 0 <= i < |s| ==> s[i] == ' '
  }

  /** SQLite `ltrim(x)`: `x` without its leading spaces (only U+0020). */
  function SqlTrimStart(s: string): (r: string)
    ensures |r| <= |s| && r == s[|s| - |r|..]
    ensures r != [] ==> r[0] != ' '
  {
    if s != [] && s[0] == ' ' then SqlTrimStart(s[1..]) else s
  }

  /** SQLite `rtrim(x)`: `x` without its trailing spaces. */
  function SqlTrimEnd(s: string): (r: string)
    ensures |r| <= |s| && r == s[..|r|]
    ensures r != [] ==> r[|r| - 1] != ' '
  {
    if s != [] && s[|s| - 1] == ' ' then SqlTrimEnd(s[..|s| - 1]) else s
  }

  /** SQLite `trim(x)`. */
  function SqlTrim(s: string): (r: string)
    ensures |r| <= |s|
  {
    SqlTrimEnd(SqlTrimStart(s))
  }

  /** What `ltrim` drops is spaces, so it leaves nothing exactly when `s` is all spaces. */
  lemma {:induction false} SqlTrimStartEmptyIffSpaces(s: string)
    ensures SqlTrimStart(s) == [] <==> AllSpaces(s)
  {
    if s != [] && s[0] == ' ' {
      SqlTrimStartEmptyIffSpaces(s[1..]);
      assert AllSpaces(s) <==> AllSpaces(s[1..]) by {
        assert forall i :: 0 < i < |s| ==> s[i] == s[1..][i - 1];
      }
    }
  }

  /** `rtrim` stops at a first character that is not a space. */
  lemma {:induction false} SqlTrimEndKeepsHead(s: string)
    requires s != [] && s[0] != ' '
    ensures SqlTrimEnd(s) != []
  {
    if |s| > 1 && s[|s| - 1] == ' ' {
      SqlTrimEndKeepsHead(s[..|s| - 1]);
    }
  }

  /** `trim(x) <> ''` holds exactly when `x` has a character other than a space. */
  lemma SqlTrimEmptyIffSpaces(s: string)
    ensures SqlTrim(s) == [] <==> AllSpaces(s)
  {
    SqlTrimStartEmptyIffSpaces(s);
    var t := SqlTrimStart(s);
    if t != [] {
      SqlTrimEndKeepsHead(t);
    }
  }

  /** `COALESCE(jid_phone.user, jid.user)`: the phone number a LID maps to,
      else the chat's own user part. */
  function ResolvedUser(phoneUser: Option<string>, jidUser: Option<string>): Option<string> {
    if phoneUser.Some? then phoneUser else jidUser
  }

  /** A display name the subject may fall back on: present, not blank to
      SQLite's `trim` and free of the masking glyph. */
  predicate UsableDisplayName(displayName: Option<string>) {
    displayName.Some? && SqlTrim(displayName.value) != "" && MaskGlyph !in displayName.value
  }

  /** `COALESCE(chat.subject, CASE … END)`. */
  function ResolvedSubject(subject: Option<string>, displayName: Option<string>): (r: Option<string>)
  {
    if subject.Some? then subject
    else if UsableDisplayName(displayName) then displayName
    else None
  }

  /** The subject is the chat's own when it has one; otherwise the display
      name, and only one that has a non-space character and no mask glyph;
      otherwise NULL. In particular a masked number never becomes a subject. */
  lemma ResolvedSubjectSpec(subject: Option<string>, displayName: Option<string>)
    ensures var r := ResolvedSubject(subject, displayName);
      (subject.Some? ==> r == subject)
      && (subject.None? && r.Some? ==> r == displayName && MaskGlyph !in r.value && !AllSpaces(r.value))
      && (r.None? <==> subject.None? && !UsableDisplayName(displayName))
  {
    if displayName.Some? {
      SqlTrimEmptyIffSpaces(displayName.value);
    }
  }

  /** A number masked as `+55∙∙∙1234` is never used as a subject. */
  lemma MaskedNameIsNotASubject()
    ensures ResolvedSubject(None, Some("+55\U{2219}\U{2219}\U{2219}1234")) == None
  {
    var name := "+55\U{2219}\U{2219}\U{2219}1234";
    assert name[3] == MaskGlyph;
  }

  /** A name made only of spaces is never used as a subject. */
  lemma BlankNameIsNotASubject(n: nat)
    ensures ResolvedSubject(None, Some(seq(n, i => ' '))) == None
  {
    SqlTrimEmptyIffSpaces(seq(n, i => ' '));
  }

  /** The four cells of a row of the preferred query: chat id, resolved
      user, resolved subject, sort timestamp. */
  function MappedQueryRow(chatId: Cell, phoneUser: Option<string>, jidUser: Option<string>,
                          subject: Option<string>, displayName: Option<string>, sortTimestamp: Cell): Row
  {
    [chatId, StrOrNull(ResolvedUser(phoneUser, jidUser)), StrOrNull(ResolvedSubject(subject, displayName)), sortTimestamp]
  }

  /** The four cells of a row of the legacy query: chat id, `jid.user`,
      `chat.subject`, sort timestamp. */
  function LegacyQueryRow(chatId: Cell, jidUser: Option<string>, subject: Option<string>, sortTimestamp: Cell): Row
  {
    [chatId, StrOrNull(jidUser), StrOrNull(subject), sortTimestamp]
  }
}
