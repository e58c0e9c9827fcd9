/**
 * The string tests the forms use: `String.prototype.trim`, a blank test `!s.trim()`, and the
 * e-mail pattern `^[^\s@]+@[^\s@]+\.[^\s@]+$`. `trim` and the class `\s` use the same set of
 * white-space code points.
 */
module Text {
  import opened Wrappers

  /** ECMAScript WhiteSpace and LineTerminator code points. */
  predicate IsJsSpace(c: char) {
    || c == '\t' || c == '\n' || c == '\U{000B}' || c == '\U{000C}' || c == '\r' || c == ' '
    || c == '\U{00A0}' || c == '\U{1680}' || ('\U{2000}' <= c <= '\U{200A}')
    || c == '\U{2028}' || c == '\U{2029}' || c == '\U{202F}' || c == '\U{205F}'
    || c == '\U{3000}' || c == '\U{FEFF}'
  }

  /** The UTF-16 code units a character takes: a surrogate pair outside the Basic Multilingual Plane. */
  function Utf16Units(c: char): (n: nat)
    ensures n == 1 <==> c as int < 0x1_0000
    ensures n == 1 || n == 2
  {
    if c as int < 0x1_0000 then 1 else 2
  }

  /** `s.length`: the number of UTF-16 code units, not of characters. */
  function Utf16Length(s: string): (n: nat)
    ensures |s| <= n <= 2 * |s|
  {
    if s == [] then 0 else Utf16Units(s[0]) + Utf16Length(s[1..])
  }

  /** A text of Basic Multilingual Plane characters has one code unit per character. */
  lemma {:induction false} BmpUtf16Length(s: string)
    requires forall i :: 0 <= i < |s| ==> s[i] as int < 0x1_0000
    ensures Utf16Length(s) == |s|
  {
    if s != [] {
      BmpUtf16Length(s[1..]);
    }
  }

  predicate AllSpace(s: string) {
    forall i :: 0 <= i < |s| ==> IsJsSpace(s[i])
  }

  /** Leading white space removed: what is left is a suffix that does not start with white space. */
  function TrimStart(s: string): (r: string)
    ensures |r| <= |s| && r == s[|s| - |r|..]
    ensures forall i :: 0 <= i < |s| - |r| ==> IsJsSpace(s[i])
    ensures r == [] || !IsJsSpace(r[0])
  {
    if s != [] && IsJsSpace(s[0]) then TrimStart(s[1..]) else s
  }

  /** Trailing white space removed: what is left is a prefix that does not end with white space. */
  function TrimEnd(s: string): (r: string)
    ensures |r| <= |s| && r == s[..|r|]
    ensures forall i :: |r| <= i < |s| ==> IsJsSpace(s[i])
    ensures r == [] || !IsJsSpace(r[|r| - 1])
  {
    if s != [] && IsJsSpace(s[|s| - 1]) then TrimEnd(s[..|s| - 1]) else s
  }

  /** `r` is the slice of `s` at `a`, with only white space before it and after it. */
  predicate TrimmedAt(s: string, r: string, a: int) {
    && 0 <= a <= |s| - |r|
    && r == s[a..a + |r|]
    && (forall i :: 0 <= i < a ==> IsJsSpace(s[i]))
    && (forall i :: a + |r| <= i < |s| ==> IsJsSpace(s[i]))
  }

  /** `s.trim()`. */
  function Trim(s: string): (r: string)
    ensures |r| <= |s|
    ensures r == [] || (!IsJsSpace(r[0]) && !IsJsSpace(r[|r| - 1]))
  {
    TrimStart(TrimEnd(s))
  }

  /** Trimming removes only the white space at either end: what is left is a slice of the text. */
  lemma TrimRemovesOnlyEnds(s: string)
    ensures exists a :: TrimmedAt(s, Trim(s), a)
  {
    var e := TrimEnd(s);
    var r := TrimStart(e);
    assert r == Trim(s);
    assert TrimmedAt(s, r, |e| - |r|);
  }

  /**
   * `!s.trim()`: nothing but white space, checked from the left. `BlankIffTrimEmpty` shows that
   * this is exactly when trimming leaves nothing.
   */
  predicate IsBlank(s: string) {
    s == [] || (IsJsSpace(s[0]) && IsBlank(s[1..]))
  }

  /** Nothing is left after removing leading white space exactly when all of it is white space. */
  lemma TrimStartEmptyIff(s: string)
    ensures TrimStart(s) == [] <==> AllSpace(s)
  {
    var r := TrimStart(s);
    if r == [] {
      assert s[..|s|] == s;
    } else {
      assert r[0] == s[|s| - |r|];
    }
  }

  /** Trimming leaves nothing exactly when every character is white space. */
  lemma TrimEmptyIffAllSpace(s: string)
    ensures Trim(s) == [] <==> AllSpace(s)
  {
    var e := TrimEnd(s);
    TrimStartEmptyIff(e);
    assert forall i :: 0 <= i < |e| ==> e[i] == s[i];
  }

  lemma {:induction false} BlankIffAllSpace(s: string)
    ensures IsBlank(s) <==> AllSpace(s)
  {
    if s != [] {
      BlankIffAllSpace(s[1..]);
      assert forall i :: 0 < i < |s| ==> s[i] == s[1..][i - 1];
    }
  }

  /** The blank test is the source's `!s.trim()`. */
  lemma BlankIffTrimEmpty(s: string)
    ensures IsBlank(s) <==> Trim(s) == []
  {
    BlankIffAllSpace(s);
    TrimEmptyIffAllSpace(s);
  }

  /** The trimmed text is blank exactly when the text is, and then it is empty. */
  lemma TrimmedBlankIff(s: string)
    ensures IsBlank(Trim(s)) <==> IsBlank(s)
    ensures IsBlank(s) ==> Trim(s) == []
  {
    BlankIffTrimEmpty(s);
  }

  /** A text that neither starts nor ends with white space is its own trimmed form. */
  lemma UnpaddedIsTrimmed(s: string)
    requires s != [] && !IsJsSpace(s[0]) && !IsJsSpace(s[|s| - 1])
    ensures Trim(s) == s
  {
    assert TrimEnd(s) == s;
    assert TrimStart(s) == s;
  }

  /** Trimming twice is trimming once. */
  lemma TrimIdempotent(s: string)
    ensures Trim(Trim(s)) == Trim(s)
  {
    var r := Trim(s);
    if r != [] {
      assert TrimEnd(r) == r;
      assert TrimStart(r) == r;
    }
  }

  /** Characters of the class `[^\s@]`. */
  predicate IsAddressChar(c: char) {
    !IsJsSpace(c) && c != '@'
  }

  predicate AllAddressChars(s: string) {
    forall i :: 0 <= i < |s| ==> IsAddressChar(s[i])
  }

  /** `[^\s@]*` as a matcher runs it: one character at a time, from the left. */
  predicate AddressRun(s: string) {
    s == [] || (IsAddressChar(s[0]) && AddressRun(s[1..]))
  }

  lemma {:induction false} AddressRunIff(s: string)
    ensures AddressRun(s) <==> AllAddressChars(s)
  {
    if s != [] {
      AddressRunIff(s[1..]);
      assert forall i :: 0 < i < |s| ==> s[i] == s[1..][i - 1];
    }
  }

  /**
   * The language of `^[^\s@]+@[^\s@]+\.[^\s@]+$`: a non-empty run before an `@` at `at`, a
   * non-empty run up to a `.` at `dot`, and a non-empty run to the end of the string.
   */
  ghost predicate MatchesEmailPattern(s: string) {
    exists at, dot ::
      && 0 < at && at + 1 < dot < |s| - 1
      && s[at] == '@' && s[dot] == '.'
      && AllAddressChars(s[..at]) && AllAddressChars(s[at + 1..dot]) && AllAddressChars(s[dot + 1..])
  }

  /** The position of the first `c` in `s`, if any. */
  function IndexOf(s: string, c: char): (r: Option<nat>)
    ensures r.None? ==> c !in s
    ensures r.Some? ==> r.value < |s| && s[r.value] == c && c !in s[..r.value]
  {
    if s == [] then None
    else if s[0] == c then Some(0)
    else
      match IndexOf(s[1..], c)
      case None => None
      case Some(k) =>
        assert s[..k + 1] == [s[0]] + s[1..][..k];
        Some(k + 1)
  }

  /** The part after the `@`: no white space, no further `@`, and a `.` with a character on each side. */
  predicate IsMailHost(d: string) {
    AddressRun(d) && |d| >= 3 && '.' in d[1..|d| - 1]
  }

  /** What `test` on the e-mail pattern computes: split at the first `@` and check both sides. */
  function IsEmailShaped(s: string): bool {
    match IndexOf(s, '@')
    case None => false
    case Some(at) => 0 < at && AddressRun(s[..at]) && IsMailHost(s[at + 1..])
  }

  /** The split-at-the-first-`@` test accepts exactly the strings the regular expression matches. */
  lemma EmailShapedIffPattern(s: string)
    ensures IsEmailShaped(s) <==> MatchesEmailPattern(s)
  {
    if IsEmailShaped(s) {
      EmailShapedMatches(s);
    }
    if MatchesEmailPattern(s) {
      var at, dot :| && 0 < at && at + 1 < dot < |s| - 1
        && s[at] == '@' && s[dot] == '.'
        && AllAddressChars(s[..at]) && AllAddressChars(s[at + 1..dot]) && AllAddressChars(s[dot + 1..]);
      MatchIsEmailShaped(s, at, dot);
    }
  }

  lemma EmailShapedMatches(s: string)
    requires IsEmailShaped(s)
    ensures MatchesEmailPattern(s)
  {
    var at := IndexOf(s, '@').value;
    var d := s[at + 1..];
    AddressRunIff(s[..at]);
    AddressRunIff(d);
    var k :| 0 < k < |d| - 1 && d[k] == '.';
    var dot := at + 1 + k;
    assert s[dot] == '.';
    var host, tld := s[at + 1..dot], s[dot + 1..];
    assert AllAddressChars(host) by {
      forall i | 0 <= i < |host| ensures IsAddressChar(host[i]) {
        assert host[i] == d[i];
      }
    }
    assert AllAddressChars(tld) by {
      forall i | 0 <= i < |tld| ensures IsAddressChar(tld[i]) {
        assert tld[i] == d[k + 1 + i];
      }
    }
  }

  lemma MatchIsEmailShaped(s: string, at: nat, dot: nat)
    requires 0 < at && at + 1 < dot < |s| - 1
    requires s[at] == '@' && s[dot] == '.'
    requires AllAddressChars(s[..at]) && AllAddressChars(s[at + 1..dot]) && AllAddressChars(s[dot + 1..])
    ensures IsEmailShaped(s)
  {
    var local := s[..at];
    assert forall i :: 0 <= i < at ==> IsAddressChar(local[i]);
    assert s[at] in s;
    var f := IndexOf(s, '@').value;
    assert f == at;
    var d, host, tld := s[at + 1..], s[at + 1..dot], s[dot + 1..];
    assert d[dot - at - 1] == '.';
    assert AllAddressChars(d) by {
      forall i | 0 <= i < |d| ensures IsAddressChar(d[i]) {
        if i < dot - at - 1 {
          assert d[i] == host[i];
        } else if i > dot - at - 1 {
          assert d[i] == tld[i - (dot - at)];
        }
      }
    }
    AddressRunIff(local);
    AddressRunIff(d);
    assert '.' in d[1..|d| - 1] by {
      assert d[1..|d| - 1][dot - at - 2] == '.';
    }
  }

  /** A string the pattern accepts is never blank: its first character is not white space. */
  lemma EmailPatternNotBlank(s: string)
    requires MatchesEmailPattern(s)
    ensures !IsBlank(s)
  {
    var at, dot :| && 0 < at && at + 1 < dot < |s| - 1
      && s[at] == '@' && s[dot] == '.'
      && AllAddressChars(s[..at]) && AllAddressChars(s[at + 1..dot]) && AllAddressChars(s[dot + 1..]);
    assert s[..at][0] == s[0];
  }

  /** An address the test accepts is never blank: it starts with a character that is not white space. */
  lemma EmailShapedNotBlank(s: string)
    requires IsEmailShaped(s)
    ensures !IsBlank(s)
  {
    var at := IndexOf(s, '@').value;
    assert s[..at][0] == s[0];
  }
}
