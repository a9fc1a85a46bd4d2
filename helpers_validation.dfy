/**
 * The form validators of src/utils/helpers.js with the limits of
 * src/utils/constants.js: password and name length checks, and the e-mail
 * pattern `^[^\s@]+@[^\s@]+\.[^\s@]+$`. An absent value (`null` or
 * `undefined` in the app) is `None`.
 */
module HelpersValidation {
  import opened Text

  const PasswordMinLength: nat := 6
  const NameMinLength: nat := 2
  const NameMaxLength: nat := 50

  /** `validatePassword`: present and at least six UTF-16 code units long. */
  function ValidatePassword(password: Option<string>): (ok: bool)
    ensures ok <==> password.Some? && Utf16Length(password.value) >= PasswordMinLength
  {
    match password
    case None => false
    case Some(p) => p != [] && Utf16Length(p) >= PasswordMinLength
  }

  /** `validateName`: present and between two and fifty UTF-16 code units long. */
  function ValidateName(name: Option<string>): (ok: bool)
    ensures ok <==> name.Some? && NameMinLength <= Utf16Length(name.value) <= NameMaxLength
  {
    match name
    case None => false
    case Some(n) => n != [] && Utf16Length(n) >= NameMinLength && Utf16Length(n) <= NameMaxLength
  }

  /**
   * The length checks count code units, not characters: three characters
   * beyond U+FFFF make a valid password and one makes a valid name, while
   * three ASCII characters are too short a password and one too short a
   * name.
   */
  lemma LengthsCountCodeUnits()
    ensures ValidatePassword(Some("\U{1F600}\U{1F600}\U{1F600}"))
    ensures ValidateName(Some("\U{1F600}"))
    ensures !ValidatePassword(Some("abc"))
    ensures !ValidateName(Some("a"))
  {
    var e := "\U{1F600}";
    assert Utf16Length(e) == 2;
    assert Utf16Length(e + e + e) == 6 by {
      assert (e + e + e)[1..] == e + e;
      assert (e + e)[1..] == e;
    }
    assert e + e + e == "\U{1F600}\U{1F600}\U{1F600}";
  }

  /**
   * The characters JavaScript's `\s` class matches: the ASCII spaces and
   * line breaks, no-break space, the Unicode space separators, the line and
   * paragraph separators and the byte order mark.
   */
  predicate IsSpace(c: char) {
    var u := c as int;
    u == 0x20 || (0x09 <= u <= 0x0D) || u == 0xA0 || u == 0x1680
    || (0x2000 <= u <= 0x200A) || u == 0x2028 || u == 0x2029
    || u == 0x202F || u == 0x205F || u == 0x3000 || u == 0xFEFF
  }

  /** A character the class `[^\s@]` admits. */
  predicate FieldChar(c: char) {
    !IsSpace(c) && c != '@'
  }

  predicate AllFieldChars(s: string) {
    forall i :: 0 <= i < |s| ==> FieldChar(s[i])
  }

  /** The index of the first `c` in `s`, if any. */
  function IndexOf(s: string, c: char): (r: Option<nat>)
    ensures r.None? <==> c !in s
    ensures r.Some? ==> r.value < |s| && s[r.value] == c && c !in s[..r.value]
  {
    if s == [] then None
    else if s[0] == c then Some(0)
    else
      match IndexOf(s[1..], c)
      case None => None
      case Some(i) =>
        assert s[..i + 1] == [s[0]] + s[1..][..i];
        Some(i + 1)
  }

  /**
   * `validateEmail`, read left to right: a non-empty local part up to the
   * first `@`, then a domain of at least three characters with a `.`
   * strictly inside it, and no space or second `@` anywhere.
   */
  function ValidateEmail(email: Option<string>): (valid: bool)
    ensures valid ==> email.Some? && 5 <= |email.value| && '@' in email.value
  {
    match email
    case None => false
    case Some(s) =>
      match IndexOf(s, '@')
      case None => false
      case Some(at) =>
        0 < at && AllFieldChars(s[..at]) && AllFieldChars(s[at + 1..])
        && |s| - at >= 4 && '.' in s[at + 2..|s| - 1]
  }

  /**
   * What the regular expression accepts: `s` is local part, `@`, host,
   * `.`, top-level part, each one or more characters of `[^\s@]`. The `@`
   * sits at `at`, the `.` at `dot`.
   */
  ghost predicate MatchesEmailPattern(s: string) {
    exists at, dot :: EmailSplit(s, at, dot)
  }

  ghost predicate EmailSplit(s: string, at: int, dot: int) {
    0 < at && at + 1 < dot && dot + 1 < |s| && s[at] == '@' && s[dot] == '.'
    && AllFieldChars(s[..at]) && AllFieldChars(s[at + 1..dot]) && AllFieldChars(s[dot + 1..])
  }

  lemma FieldCharsSplit(s: string, k: int)
    requires 0 <= k < |s| && FieldChar(s[k])
    ensures AllFieldChars(s) <==> AllFieldChars(s[..k]) && AllFieldChars(s[k + 1..])
  {
    if AllFieldChars(s[..k]) && AllFieldChars(s[k + 1..]) {
      forall i | 0 <= i < |s|
        ensures FieldChar(s[i])
      {
        if i < k {
          assert s[i] == s[..k][i];
        } else if i > k {
          assert s[i] == s[k + 1..][i - k - 1];
        }
      }
    }
  }

  /** The domain after the `@` is host, `.`, top-level part. */
  lemma DomainSplit(s: string, at: int, dot: int)
    requires 0 <= at && at + 1 < dot && dot + 1 < |s| && s[dot] == '.'
    ensures AllFieldChars(s[at + 1..])
        <==> AllFieldChars(s[at + 1..dot]) && AllFieldChars(s[dot + 1..])
  {
    var domain := s[at + 1..];
    assert domain[dot - at - 1] == '.';
    FieldCharsSplit(domain, dot - at - 1);
    assert domain[..dot - at - 1] == s[at + 1..dot];
    assert domain[dot - at..] == s[dot + 1..];
  }

  lemma AcceptedMatches(s: string)
    requires ValidateEmail(Some(s))
    ensures MatchesEmailPattern(s)
  {
    var at := IndexOf(s, '@').value;
    var inner := s[at + 2..|s| - 1];
    var k :| 0 <= k < |inner| && inner[k] == '.';
    var dot := at + 2 + k;
    assert s[dot] == '.';
    DomainSplit(s, at, dot);
    assert EmailSplit(s, at, dot);
  }

  /** The first `@` of a string whose prefix up to `at` has none is at `at`. */
  lemma FirstAt(s: string, at: int)
    requires 0 <= at < |s| && s[at] == '@' && AllFieldChars(s[..at])
    ensures IndexOf(s, '@') == Some(at)
  {
    forall i | 0 <= i < at
      ensures s[i] != '@'
    {
      assert s[i] == s[..at][i];
    }
    assert s[..at + 1][at] == '@';
  }

  lemma MatchesAccepted(s: string)
    requires MatchesEmailPattern(s)
    ensures ValidateEmail(Some(s))
  {
    var at, dot :| EmailSplit(s, at, dot);
    DomainSplit(s, at, dot);
    FirstAt(s, at);
    assert s[at + 2..|s| - 1][dot - at - 2] == '.';
  }

  /** The computed check accepts exactly the strings the pattern matches. */
  lemma ValidateEmailMatchesPattern(s: string)
    ensures ValidateEmail(Some(s)) <==> MatchesEmailPattern(s)
  {
    if ValidateEmail(Some(s)) {
      AcceptedMatches(s);
    }
    if MatchesEmailPattern(s) {
      MatchesAccepted(s);
    }
  }

  /**
   * An accepted address holds no white space, exactly one `@` with text
   * before it, and a `.` with text on both sides after the `@`.
   */
  lemma ValidEmailShape(s: string)
    requires ValidateEmail(Some(s))
    ensures forall i :: 0 <= i < |s| ==> !IsSpace(s[i])
    ensures multiset(s)['@'] == 1
    ensures exists at, dot :: EmailSplit(s, at, dot)
  {
    AcceptedMatches(s);
    var at, dot :| EmailSplit(s, at, dot);
    var rest := s[at + 1..];
    DomainSplit(s, at, dot);
    assert s == s[..at] + [s[at]] + rest;
    NoCharCount(s[..at], '@');
    NoCharCount(rest, '@');
    assert multiset(s) == multiset(s[..at]) + multiset{'@'} + multiset(rest);
    forall i | 0 <= i < |s|
      ensures !IsSpace(s[i])
    {
      if i < at {
        assert s[i] == s[..at][i];
      } else if i > at {
        assert s[i] == rest[i - at - 1];
      }
    }
  }

  lemma NoCharCount(s: string, c: char)
    requires forall i :: 0 <= i < |s| ==> s[i] != c
    ensures multiset(s)[c] == 0
  {
    assert c !in s;
  }

  /** `validateEmail("a@b.c")` holds. */
  lemma ValidateEmailAccepts()
    ensures ValidateEmail(Some("a@b.c"))
  {
    var e := "a@b.c";
    assert e[0] != '@' && e[1] == '@';
    assert IndexOf(e[1..], '@') == Some(0);
    assert e[3..4] == ".";
    assert AllFieldChars(e[2..]);
  }

  /** `validateEmail("a@.c")` fails: the host part is empty. */
  lemma ValidateEmailRejectsEmptyHost()
    ensures !ValidateEmail(Some("a@.c"))
  {
    var e := "a@.c";
    assert e[0] != '@' && e[1] == '@';
    assert IndexOf(e[1..], '@') == Some(0);
    assert e[3..3] == [];
  }

  /** `validateEmail("a b@c.d")` fails: it holds a space. */
  lemma ValidateEmailRejectsSpace()
    ensures !ValidateEmail(Some("a b@c.d"))
  {
    var e := "a b@c.d";
    assert e[3..][0] == '@' && IndexOf(e[3..], '@') == Some(0);
    assert e[2..][1..] == e[3..] && e[2] != '@';
    assert e[1..][1..] == e[2..] && e[1] != '@';
    assert e[0] != '@';
    assert IndexOf(e, '@') == Some(3);
    assert e[..3][1] == ' ';
  }
}
