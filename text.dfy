/** The JavaScript string built-ins the helpers of services/dbService.ts rely on:
    `trim`, `toLowerCase`, `split(/[\\/]/)`, `lastIndexOf` and `includes`. */
module Text {

  /** ECMAScript WhiteSpace and LineTerminator code points (the space
      separators of Unicode category Zs included): what `String.prototype.trim`
      strips from both ends. */
  predicate IsJsWhitespace(c: char) {
    c == '\t' || c == '\n' || c == '\U{B}' || c == '\U{C}' || c == '\r' || c == ' '
    || c == '\U{A0}' || c == '\U{1680}' || ('\U{2000}' <= c <= '\U{200A}')
    || c == '\U{2028}' || c == '\U{2029}' || c == '\U{202F}' || c == '\U{205F}'
    || c == '\U{3000}' || c == '\U{FEFF}'
  }

  /** `s` without its leading whitespace. */
  function TrimStart(s: string): (r: string)
    ensures |r| <= |s| && r == s[|s| - |r|..]
    ensures r != [] ==> !IsJsWhitespace(r[0])
  {
    if s != [] && IsJsWhitespace(s[0]) then TrimStart(s[1..]) else s
  }

  /** `s` without its trailing whitespace. */
  function TrimEnd(s: string): (r: string)
    ensures |r| <= |s| && r == s[..|r|]
    ensures r != [] ==> !IsJsWhitespace(r[|r| - 1])
  {
    if s != [] && IsJsWhitespace(s[|s| - 1]) then TrimEnd(s[..|s| - 1]) else s
  }

  /** `s.trim()`: a piece of `s` that neither starts nor ends with
      whitespace, and `s` itself when `s` is already clean at both ends. */
  function Trim(s: string): (r: string)
    ensures |r| <= |s|
    ensures r != [] ==> !IsJsWhitespace(r[0]) && !IsJsWhitespace(r[|r| - 1])
    ensures s == [] || (!IsJsWhitespace(s[0]) && !IsJsWhitespace(s[|s| - 1])) ==> r == s
  {
    var t := TrimStart(s);
    var r := TrimEnd(t);
    assert r != [] ==> r[0] == t[0];
    r
  }

  predicate IsBlank(s: string) {
    forall i :: 0 <= i < |s| ==> IsJsWhitespace(s[i])
  }

  /** What `trimStart` drops is whitespace. */
  lemma {:induction false} TrimStartDropsWhitespace(s: string)
    ensures IsBlank(s[..|s| - |TrimStart(s)|])
  {
    if s != [] && IsJsWhitespace(s[0]) {
      TrimStartDropsWhitespace(s[1..]);
      var k := |s| - |TrimStart(s)|;
      assert s[..k] == [s[0]] + s[1..][..k - 1];
    }
  }

  /** What `trimEnd` drops is whitespace. */
  lemma {:induction false} TrimEndDropsWhitespace(s: string)
    ensures IsBlank(s[|TrimEnd(s)|..])
  {
    if s != [] && IsJsWhitespace(s[|s| - 1]) {
      TrimEndDropsWhitespace(s[..|s| - 1]);
      var k := |TrimEnd(s)|;
      assert s[k..] == s[..|s| - 1][k..] + [s[|s| - 1]];
    }
  }

  /** `trim` gives the empty string exactly for a string of whitespace. */
  lemma TrimEmptyIffBlank(s: string)
    ensures Trim(s) == [] <==> IsBlank(s)
  {
    var t := TrimStart(s);
    TrimStartDropsWhitespace(s);
    TrimEndDropsWhitespace(t);
    var k := |s| - |t|;
    if Trim(s) == [] {
      assert t == [];
      assert s == s[..k];
    }
  }

  /** What `trim` keeps is the piece of `s` between its leading and its
      trailing whitespace, and what it drops at either end is whitespace. */
  lemma TrimIsSlice(s: string)
    ensures var k := |s| - |TrimStart(s)|;
      k + |Trim(s)| <= |s| && Trim(s) == s[k..k + |Trim(s)|]
      && IsBlank(s[..k]) && IsBlank(s[k + |Trim(s)|..])
  {
    TrimDropsWhitespace(s);
  }

  /** The leading and the trailing part `trim` drops are whitespace. */
  lemma TrimDropsWhitespace(s: string)
    ensures var k := |s| - |TrimStart(s)|;
      k + |Trim(s)| <= |s| && IsBlank(s[..k]) && IsBlank(s[k + |Trim(s)|..])
  {
    TrimStartDropsWhitespace(s);
    TrimEndDropsWhitespaceAfterStart(s);
  }

  /** What `trim` drops after the kept piece is whitespace. */
  lemma TrimEndDropsWhitespaceAfterStart(s: string)
    ensures |s| - |TrimStart(s)| + |Trim(s)| <= |s|
    ensures IsBlank(s[|s| - |TrimStart(s)| + |Trim(s)|..])
  {
    var t := TrimStart(s);
    var r := TrimEnd(t);
    TrimEndDropsWhitespace(t);
    BlankTail(s, t, |r|);
    assert Trim(s) == r;
  }

  /** A blank tail of a suffix `t` of `s` is a blank tail of `s`. */
  lemma BlankTail(s: string, t: string, j: nat)
    requires |t| <= |s| && t == s[|s| - |t|..] && j <= |t| && IsBlank(t[j..])
    ensures IsBlank(s[|s| - |t| + j..])
  {
    assert t[j..] == s[|s| - |t| + j..];
  }

  /** Trimming twice is trimming once. */
  lemma TrimIdempotent(s: string)
    ensures Trim(Trim(s)) == Trim(s)
  {
  }

  /** Leading whitespace in front of a piece that starts clean is all `trim`
      takes from the front. */
  lemma {:induction false} TrimStartBeforeClean(x: string, y: string)
    requires y != [] && !IsJsWhitespace(y[0])
    ensures TrimStart(x + y) == TrimStart(x) + y
  {
    if x == [] {
      assert x + y == y;
    } else if IsJsWhitespace(x[0]) {
      assert (x + y)[1..] == x[1..] + y;
      TrimStartBeforeClean(x[1..], y);
    } else {
      assert (x + y)[0] == x[0];
    }
  }

  /** Trimming `x + tail`, for a tail clean at both ends, trims the front of `x` only. */
  lemma TrimBeforeCleanTail(x: string, tail: string)
    requires tail != [] && !IsJsWhitespace(tail[0]) && !IsJsWhitespace(tail[|tail| - 1])
    ensures Trim(x + tail) == TrimStart(x) + tail
  {
    TrimStartBeforeClean(x, tail);
    var r := TrimStart(x) + tail;
    assert r[|r| - 1] == tail[|tail| - 1];
  }

  /** ASCII lower-casing of one character. */
  function LowerChar(c: char): char {
    if 'A' <= c <= 'Z' then (c as int + 32) as char else c
  }

  /** `s.toLowerCase()`, restricted to ASCII letters: no capital is left,
      and every other character stays as it was. */
  function ToLower(s: string): (r: string)
    ensures |r| == |s|
    ensures forall i :: 0 <= i < |r| ==> !('A' <= r[i] <= 'Z')
    ensures forall i :: 0 <= i < |s| && !('A' <= s[i] <= 'Z') ==> r[i] == s[i]
  {
    seq(|s|, i requires 0 <= i < |s| => LowerChar(s[i]))
  }

  lemma ToLowerAppend(a: string, b: string)
    ensures ToLower(a + b) == ToLower(a) + ToLower(b)
  {
  }

  /** A string without ASCII capitals is its own lower-casing. */
  lemma ToLowerWithoutCapitals(s: string)
    requires forall i :: 0 <= i < |s| ==> !('A' <= s[i] <= 'Z')
    ensures ToLower(s) == s
  {
  }

  /** Lower-casing a lower-cased string changes nothing. */
  lemma ToLowerIdempotent(s: string)
    ensures ToLower(ToLower(s)) == ToLower(s)
  {
  }

  predicate IsPathSeparator(c: char) {
    c == '/' || c == '\\'
  }

  predicate HasNoSeparator(p: string) {
    forall j :: 0 <= j < |p| ==> !IsPathSeparator(p[j])
  }

  /** `s.split(/[\\/]/)`: the pieces of `s` between path separators,
      one piece at least. */
  function SplitOnSeparators(s: string): (parts: seq<string>)
    ensures |parts| >= 1
  {
    if s == [] then [[]]
    else
      var init := SplitOnSeparators(s[..|s| - 1]);
      var c := s[|s| - 1];
      if IsPathSeparator(c) then init + [[]]
      else init[..|init| - 1] + [init[|init| - 1] + [c]]
  }

  /** No piece of a split contains a separator. */
  lemma {:induction false} SplitPiecesHaveNoSeparator(s: string)
    ensures forall i :: 0 <= i < |SplitOnSeparators(s)| ==> HasNoSeparator(SplitOnSeparators(s)[i])
  {
    if s != [] {
      var init := SplitOnSeparators(s[..|s| - 1]);
      SplitPiecesHaveNoSeparator(s[..|s| - 1]);
      var c := s[|s| - 1];
      if !IsPathSeparator(c) {
        var prev := init[|init| - 1];
        assert HasNoSeparator(prev);
        assert HasNoSeparator(prev + [c]);
        var parts := init[..|init| - 1] + [prev + [c]];
        forall i | 0 <= i < |parts| ensures HasNoSeparator(parts[i]) {
          if i < |parts| - 1 {
            assert parts[i] == init[i];
          }
        }
      }
    }
  }

  /** Any slice of a separator-free string is separator-free. */
  lemma NoSeparatorInSlice(s: string, i: int, j: int)
    requires HasNoSeparator(s) && 0 <= i <= j <= |s|
    ensures HasNoSeparator(s[i..j])
  {
    forall k | 0 <= k < j - i ensures !IsPathSeparator(s[i..j][k]) {
      assert s[i..j][k] == s[i + k];
    }
  }

  /** Trimming cannot bring in a separator. */
  lemma TrimKeepsNoSeparator(s: string)
    requires HasNoSeparator(s)
    ensures HasNoSeparator(Trim(s))
  {
    var t := TrimStart(s);
    NoSeparatorInSlice(s, |s| - |t|, |s|);
    assert s[|s| - |t|..|s|] == t;
    var r := TrimEnd(t);
    NoSeparatorInSlice(t, 0, |r|);
    assert t[0..|r|] == r;
  }

  /** `parts.join('/')` */
  function JoinWithSlash(parts: seq<string>): string {
    if parts == [] then ""
    else if |parts| == 1 then parts[0]
    else JoinWithSlash(parts[..|parts| - 1]) + "/" + parts[|parts| - 1]
  }

  /** `s` with every backslash turned into a slash. */
  function Slashed(s: string): string {
    seq(|s|, i requires 0 <= i < |s| => if s[i] == '\\' then '/' else s[i])
  }

  /** Splitting loses only which of the two separators stood between the pieces:
      joining them back on `/` gives `s` with its backslashes made slashes. */
  lemma {:induction false} SplitJoinRoundTrip(s: string)
    ensures JoinWithSlash(SplitOnSeparators(s)) == Slashed(s)
  {
    if s != [] {
      var p := s[..|s| - 1];
      var c := s[|s| - 1];
      assert s == p + [c];
      SplitJoinRoundTrip(p);
      if IsPathSeparator(c) {
        JoinAfterSeparator(p, c);
      } else {
        JoinAfterPlain(p, c);
      }
    }
  }

  /** Appending a character appends its slashed form. */
  lemma SlashedAppend(p: string, c: char)
    ensures Slashed(p + [c]) == Slashed(p) + [if c == '\\' then '/' else c]
  {
  }

  /** A separator appended to `p` starts a new, empty last piece. */
  lemma JoinAfterSeparator(p: string, c: char)
    requires IsPathSeparator(c) && JoinWithSlash(SplitOnSeparators(p)) == Slashed(p)
    ensures JoinWithSlash(SplitOnSeparators(p + [c])) == Slashed(p + [c])
  {
    var init := SplitOnSeparators(p);
    assert (p + [c])[..|p|] == p;
    assert SplitOnSeparators(p + [c]) == init + [[]];
    assert (init + [[]])[..|init|] == init;
    SlashedAppend(p, c);
  }

  /** Any other character appended to `p` extends the last piece. */
  lemma JoinAfterPlain(p: string, c: char)
    requires !IsPathSeparator(c) && JoinWithSlash(SplitOnSeparators(p)) == Slashed(p)
    ensures JoinWithSlash(SplitOnSeparators(p + [c])) == Slashed(p + [c])
  {
    var init := SplitOnSeparators(p);
    assert (p + [c])[..|p|] == p;
    assert SplitOnSeparators(p + [c]) == init[..|init| - 1] + [init[|init| - 1] + [c]];
    JoinExtendLast(init, c);
    SlashedAppend(p, c);
  }

  /** Growing the last piece by one character grows the joined string by it. */
  lemma JoinExtendLast(parts: seq<string>, c: char)
    requires |parts| >= 1
    ensures JoinWithSlash(parts[..|parts| - 1] + [parts[|parts| - 1] + [c]]) == JoinWithSlash(parts) + [c]
  {
    var grown := parts[..|parts| - 1] + [parts[|parts| - 1] + [c]];
    if |parts| > 1 {
      assert grown[..|grown| - 1] == parts[..|parts| - 1];
    }
  }

  /** The index of the last path separator of `s`, or -1. */
  function LastSeparatorIndex(s: string): (i: int)
    ensures -1 <= i < |s|
    ensures i >= 0 ==> IsPathSeparator(s[i])
  {
    if s == [] then -1
    else if IsPathSeparator(s[|s| - 1]) then |s| - 1
    else LastSeparatorIndex(s[..|s| - 1])
  }

  /** Nothing after the index found is a separator, so it is -1 exactly when
      `s` has no separator at all. */
  lemma {:induction false} LastSeparatorIndexIsLast(s: string)
    ensures HasNoSeparator(s[LastSeparatorIndex(s) + 1..])
    ensures LastSeparatorIndex(s) == -1 <==> HasNoSeparator(s)
  {
    if s != [] && !IsPathSeparator(s[|s| - 1]) {
      var p := s[..|s| - 1];
      LastSeparatorIndexIsLast(p);
      var i := LastSeparatorIndex(p);
      assert s[i + 1..] == p[i + 1..] + [s[|s| - 1]];
    }
  }

  /** The last piece `split` yields is what follows the last separator. */
  lemma {:induction false} SplitLastPiece(s: string)
    ensures var parts := SplitOnSeparators(s);
      parts[|parts| - 1] == s[LastSeparatorIndex(s) + 1..]
  {
    if s != [] {
      var p := s[..|s| - 1];
      SplitLastPiece(p);
      var c := s[|s| - 1];
      var init := SplitOnSeparators(p);
      if IsPathSeparator(c) {
        assert SplitOnSeparators(s) == init + [[]];
      } else {
        var k := LastSeparatorIndex(p);
        assert SplitOnSeparators(s) == init[..|init| - 1] + [init[|init| - 1] + [c]];
        assert s[k + 1..] == p[k + 1..] + [c];
      }
    }
  }

  /** Separator-free characters appended at the end do not move the last separator. */
  lemma {:induction false} LastSeparatorIgnoresTail(s: string, t: string)
    requires HasNoSeparator(t)
    ensures LastSeparatorIndex(s + t) == LastSeparatorIndex(s)
  {
    if t != [] {
      assert (s + t)[..|s + t| - 1] == s + t[..|t| - 1];
      LastSeparatorIgnoresTail(s, t[..|t| - 1]);
    } else {
      assert s + t == s;
    }
  }

  /** After the last separator of `stem + tail`, for a tail without
      separators and clean at both ends, `trim` keeps the whole tail. */
  lemma TrimmedSegmentKeepsCleanTail(stem: string, tail: string)
    requires tail != [] && HasNoSeparator(tail)
    requires !IsJsWhitespace(tail[0]) && !IsJsWhitespace(tail[|tail| - 1])
    ensures var k := LastSeparatorIndex(stem);
      Trim((stem + tail)[LastSeparatorIndex(stem + tail) + 1..]) == TrimStart(stem[k + 1..]) + tail
  {
    LastSeparatorIgnoresTail(stem, tail);
    var k := LastSeparatorIndex(stem);
    assert (stem + tail)[k + 1..] == stem[k + 1..] + tail;
    TrimBeforeCleanTail(stem[k + 1..], tail);
  }

  /** `s.lastIndexOf(c)` for a one-character needle. */
  function LastIndexOf(s: string, c: char): (i: int)
    ensures -1 <= i < |s|
    ensures i == -1 <==> c !in s
    ensures i >= 0 ==> s[i] == c && c !in s[i + 1..]
  {
    if s == [] then -1
    else if s[|s| - 1] == c then |s| - 1
    else
      var i := LastIndexOf(s[..|s| - 1], c);
      assert s == s[..|s| - 1] + [s[|s| - 1]];
      assert i >= 0 ==> s[i + 1..] == s[..|s| - 1][i + 1..] + [s[|s| - 1]];
      i
  }

  /** Characters other than `c` appended at the end do not move its last occurrence. */
  lemma {:induction false} LastIndexOfIgnoresTail(s: string, t: string, c: char)
    requires c !in t
    ensures LastIndexOf(s + t, c) == LastIndexOf(s, c)
  {
    if t != [] {
      assert (s + t)[..|s + t| - 1] == s + t[..|t| - 1];
      LastIndexOfIgnoresTail(s, t[..|t| - 1], c);
    } else {
      assert s + t == s;
    }
  }

  /** `s.startsWith(t)` */
  predicate StartsWith(s: string, t: string) {
    |t| <= |s| && s[..|t|] == t
  }

  /** `s.includes(t)` */
  predicate Includes(s: string, t: string) {
    StartsWith(s, t) || (s != [] && Includes(s[1..], t))
  }

  /** A needle without spaces is found in `a + " " + b` only inside `a` or
      inside `b`: the joining space cannot be part of a match. */
  lemma {:induction false} IncludesAcrossSpace(a: string, b: string, t: string)
    requires t != [] && ' ' !in t
    ensures Includes(a + " " + b, t) <==> Includes(a, t) || Includes(b, t)
  {
    var s := a + " " + b;
    if a == [] {
      assert s == " " + b;
      assert t[0] != ' ';
      if |t| <= |s| {
        assert s[..|t|][0] == ' ';
      }
      assert s[1..] == b;
    } else {
      assert s[1..] == a[1..] + " " + b;
      IncludesAcrossSpace(a[1..], b, t);
      assert StartsWith(s, t) <==> StartsWith(a, t) by {
        if |t| <= |a| {
          assert s[..|t|] == a[..|t|];
        } else {
          assert t[|a|] != ' ';
          if |t| <= |s| {
            assert s[..|t|][|a|] == ' ';
          }
        }
      }
    }
  }
}
