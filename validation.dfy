/** The two input validators of the user router, `isValidEmail` and
    `isValidPassword`, written as predicates over the characters of the string
    that the regular expressions match, with lemmas that characterise them. */
module Validation {

  /** The characters JavaScript's `\s` matches. */
  predicate IsJsWhitespace(c: char) {
    || c == '\t' || c == '\n' || c == '\U{000B}' || c == '\U{000C}' || c == '\r'
    || c == ' ' || c == '\U{00A0}' || c == '\U{1680}'
    || ('\U{2000}' <= c <= '\U{200A}')
    || c == '\U{2028}' || c == '\U{2029}' || c == '\U{202F}' || c == '\U{205F}'
    || c == '\U{3000}' || c == '\U{FEFF}'
  }

  /** The characters JavaScript's `.` does not match (no `s` flag). */
  predicate IsLineTerminator(c: char) {
    c == '\n' || c == '\r' || c == '\U{2028}' || c == '\U{2029}'
  }

  // ---------------------------------------------------------------- email

  /** `[^\s@]`: neither whitespace nor `@`. */
  predicate IsEmailChar(c: char) {
    !IsJsWhitespace(c) && c != '@'
  }

  /** `[^\s@]*` over the whole of `t`. */
  predicate AllEmailChars(t: string) {
    forall i :: 0 <= i < |t| ==> IsEmailChar(t[i])
  }

  /** `^[^\s@]+@[^\s@]+\.[^\s@]+$` matched with the `@` at `at` and the
      escaped `.` at `dot`. */
  predicate IsEmailSplit(s: string, at: int, dot: int) {
    && 0 < at && at + 1 < dot && dot + 1 < |s|
    && s[at] == '@' && s[dot] == '.'
    && AllEmailChars(s[..at])
    && AllEmailChars(s[at + 1..dot])
    && AllEmailChars(s[dot + 1..])
  }

  /** `isValidEmail(s)`: the regular expression matches for some choice of the
      `@` and the `.`. */
  predicate IsValidEmail(s: string) {
    exists at, dot :: 0 <= at < dot < |s| && IsEmailSplit(s, at, dot)
  }

  predicate NoWhitespace(s: string) {
    forall i :: 0 <= i < |s| ==> !IsJsWhitespace(s[i])
  }

  /** The same language described without the regular expression: no
      whitespace, exactly one `@`, not first, and a `.` after it with at least
      one character on each side. */
  predicate EmailShape(s: string) {
    && NoWhitespace(s)
    && multiset(s)['@'] == 1
    && exists at, dot :: 0 <= at < dot < |s| && 0 < at && at + 1 < dot && dot + 1 < |s| && s[at] == '@' && s[dot] == '.'
  }

  lemma NoAtCounted(t: string)
    requires AllEmailChars(t)
    ensures multiset(t)['@'] == 0
  {
  }

  lemma TwoAtsCounted(s: string, i: int, j: int)
    requires 0 <= i < j < |s| && s[i] == '@' && s[j] == '@'
    ensures multiset(s)['@'] >= 2
  {
    assert s == s[..j] + s[j..];
    assert s[..j][i] == '@';
    assert s[j..][0] == '@';
  }

  /** `isValidEmail` accepts exactly the strings of EmailShape: so an accepted
      address holds exactly one `@` and no whitespace. */
  lemma EmailCharacterised(s: string)
    ensures IsValidEmail(s) <==> EmailShape(s)
  {
    if IsValidEmail(s) {
      var at, dot :| 0 <= at < dot < |s| && IsEmailSplit(s, at, dot);
      assert s == s[..at] + [s[at]] + (s[at + 1..dot] + [s[dot]] + s[dot + 1..]);
      NoAtCounted(s[..at]);
      NoAtCounted(s[at + 1..dot]);
      NoAtCounted(s[dot + 1..]);
      forall i | 0 <= i < |s| ensures !IsJsWhitespace(s[i]) {
        if i < at {
          assert s[..at][i] == s[i];
        } else if at < i < dot {
          assert s[at + 1..dot][i - at - 1] == s[i];
        } else if dot < i {
          assert s[dot + 1..][i - dot - 1] == s[i];
        }
      }
    }
    if EmailShape(s) {
      var at, dot :| 0 <= at < dot < |s| && 0 < at && at + 1 < dot && dot + 1 < |s| && s[at] == '@' && s[dot] == '.';
      forall i | 0 <= i < |s| && i != at ensures IsEmailChar(s[i]) {
        if s[i] == '@' {
          if i < at { TwoAtsCounted(s, i, at); } else { TwoAtsCounted(s, at, i); }
        }
      }
      assert IsEmailSplit(s, at, dot);
    }
  }

  lemma EmailExamples()
    ensures IsValidEmail("a@b.c")
    ensures IsValidEmail("a@b.com")
    ensures !IsValidEmail("a@b")
    ensures !IsValidEmail("ab.c")
  {
    assert IsEmailSplit("a@b.c", 1, 3);
    assert IsEmailSplit("a@b.com", 1, 3);
    EmailCharacterised("ab.c");
    assert "ab.c" == ['a', 'b', '.', 'c'];
  }

  // ------------------------------------------------------------- password

  /** The four classes the lookaheads of the password expression ask for:
      `[A-Z]`, `[a-z]`, `\d` and `[\W_]` (a character that is not an ASCII
      letter or digit; this includes `_` and whitespace). */
  datatype CharClass = Upper | Lower | Digit | Symbol

  predicate InClass(c: char, k: CharClass) {
    match k
    case Upper => 'A' <= c <= 'Z'
    case Lower => 'a' <= c <= 'z'
    case Digit => '0' <= c <= '9'
    case Symbol => !('A' <= c <= 'Z' || 'a' <= c <= 'z' || '0' <= c <= '9')
  }

  predicate NoLineTerminator(s: string) {
    forall i :: 0 <= i < |s| ==> !IsLineTerminator(s[i])
  }

  /** `(?=.*X)` at the start of `s`: a character of class `k`, reached
      through characters `.` matches. */
  predicate Lookahead(s: string, k: CharClass) {
    exists i :: 0 <= i < |s| && NoLineTerminator(s[..i]) && InClass(s[i], k)
  }

  /** `isValidPassword(s)`: `^(?=.*[A-Z])(?=.*[a-z])(?=.*\d)(?=.*[\W_]).{6,}$`. */
  predicate IsValidPassword(s: string) {
    && Lookahead(s, Upper) && Lookahead(s, Lower) && Lookahead(s, Digit) && Lookahead(s, Symbol)
    && |s| >= 6 && NoLineTerminator(s)
  }

  predicate Contains(s: string, k: CharClass) {
    exists i :: 0 <= i < |s| && InClass(s[i], k)
  }

  /** The password expression holds exactly of strings of six or more
      characters, none a line terminator, with one character of each class. */
  lemma PasswordCharacterised(s: string)
    ensures IsValidPassword(s) <==>
      |s| >= 6 && NoLineTerminator(s)
      && Contains(s, Upper) && Contains(s, Lower) && Contains(s, Digit) && Contains(s, Symbol)
  {
    if |s| >= 6 && NoLineTerminator(s) {
      forall k: CharClass | Contains(s, k) ensures Lookahead(s, k) {
        var i :| 0 <= i < |s| && InClass(s[i], k);
        assert NoLineTerminator(s[..i]) by {
          forall j | 0 <= j < i ensures !IsLineTerminator(s[..i][j]) { assert s[..i][j] == s[j]; }
        }
      }
    }
  }

  lemma StrongPasswordAccepted()
    ensures IsValidPassword("Abcde1!")
  {
    var good := "Abcde1!";
    assert InClass(good[0], Upper) && InClass(good[1], Lower) && InClass(good[5], Digit) && InClass(good[6], Symbol);
    PasswordCharacterised(good);
  }

  lemma WeakPasswordsRejected()
    ensures !IsValidPassword("abcde1!")
    ensures !IsValidPassword("Abcdef!")
    ensures !IsValidPassword("Ab1!")
  {
    var noUpper := "abcde1!";
    assert !Contains(noUpper, Upper) by {
      assert noUpper == ['a', 'b', 'c', 'd', 'e', '1', '!'];
    }
    PasswordCharacterised(noUpper);
    var noDigit := "Abcdef!";
    assert !Contains(noDigit, Digit) by {
      assert noDigit == ['A', 'b', 'c', 'd', 'e', 'f', '!'];
    }
    PasswordCharacterised(noDigit);
  }
}
