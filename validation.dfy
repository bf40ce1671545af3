/**
 * Field validation of the contacts book.
 *
 * The application checks a phone number with `re.match(r"^\+?\d{7,15}$", phone)`
 * and an e-mail address with `re.match(r"[^@]+@[^@]+\.[^@]+", email)`.
 * Each regular expression is written here as an explicit matcher that accepts
 * exactly the strings `re.match` accepts, although its steps differ from
 * those of Python's backtracking engine, and each matcher is proved equal to
 * a declarative description of the strings it accepts.
 */
module Validation {

  /** `\d`, restricted to the ASCII decimal digits. */
  predicate IsDigit(c: char) {
    '0' <= c <= '9'
  }

  predicate AllDigits(s: string) {
    forall k :: 0 <= k < |s| ==> IsDigit(s[k])
  }

  // ---------------------------------------------------------------------
  // Phone: ^\+?\d{7,15}$
  // ---------------------------------------------------------------------

  /**
   * `\d{lo,hi}$`: between `lo` and `hi` more digits must follow, and then
   * the end of the string.
   */
  predicate MatchDigitRun(t: string, lo: nat, hi: nat)
    decreases |t|
  {
    if t == [] then lo == 0
    else if hi == 0 then false
    else IsDigit(t[0]) && MatchDigitRun(t[1..], if lo == 0 then 0 else lo - 1, hi - 1)
  }

  /**
   * `^\+?\d{7,15}$`: the optional `+` is taken when present; leaving it
   * out cannot help, because `\d` does not match `+`. A passing phone is
   * 7 to 16 characters long and ends in a digit.
   */
  predicate IsPhone(s: string)
    ensures IsPhone(s) ==> 7 <= |s| <= 16 && IsDigit(s[|s| - 1])
  {
    DigitRunIff(s, 7, 15);
    DigitRunIff(if |s| > 0 then s[1..] else s, 7, 15);
    if |s| > 0 && s[0] == '+' then MatchDigitRun(s[1..], 7, 15)
    else MatchDigitRun(s, 7, 15)
  }

  /** A counted run of digits is exactly a digit string whose length lies in range. */
  lemma {:induction false} DigitRunIff(t: string, lo: nat, hi: nat)
    ensures MatchDigitRun(t, lo, hi) <==> AllDigits(t) && lo <= |t| <= hi
    decreases |t|
  {
    if t != [] && hi != 0 {
      var lo' := if lo == 0 then 0 else lo - 1;
      DigitRunIff(t[1..], lo', hi - 1);
      if IsDigit(t[0]) && AllDigits(t[1..]) {
        assert AllDigits(t) by {
          forall k | 0 <= k < |t| ensures IsDigit(t[k]) {
            if k > 0 { assert t[k] == t[1..][k - 1]; }
          }
        }
      }
      if AllDigits(t) {
        assert IsDigit(t[0]);
        assert AllDigits(t[1..]) by {
          forall k | 0 <= k < |t[1..]| ensures IsDigit(t[1..][k]) {
            assert t[1..][k] == t[k + 1];
          }
        }
      }
    }
  }

  /**
   * The phone check accepts exactly an optional single leading `+` followed
   * by 7 to 15 digits and nothing else.
   */
  lemma PhoneIff(s: string)
    ensures IsPhone(s) <==>
      (AllDigits(s) && 7 <= |s| <= 15) ||
      (|s| > 0 && s[0] == '+' && AllDigits(s[1..]) && 7 <= |s| - 1 <= 15)
  {
    if |s| > 0 && s[0] == '+' {
      DigitRunIff(s[1..], 7, 15);
      assert !IsDigit(s[0]);
    } else {
      DigitRunIff(s, 7, 15);
    }
  }

  /** Building a phone number from its parts: an optional `+` and 7 to 15 digits. */
  lemma PhoneFromParts(plus: bool, digits: string)
    requires AllDigits(digits) && 7 <= |digits| <= 15
    ensures IsPhone(if plus then "+" + digits else digits)
  {
    var s := if plus then "+" + digits else digits;
    PhoneIff(s);
    if plus { assert s[1..] == digits; }
  }

  /** Five digits are too few: "12345" is rejected. */
  lemma ShortPhoneRejected()
    ensures !IsPhone("12345")
  {
    PhoneIff("12345");
  }

  /** A leading `+` and eight digits: "+12345678" is accepted. */
  lemma PlusPhoneAccepted()
    ensures IsPhone("+12345678")
  {
    PhoneFromParts(true, "12345678");
    assert "+" + "12345678" == "+12345678";
  }

  // ---------------------------------------------------------------------
  // E-mail: [^@]+@[^@]+\.[^@]+   (anchored at the start only)
  // ---------------------------------------------------------------------

  predicate NoAt(s: string) {
    forall k :: 0 <= k < |s| ==> s[k] != '@'
  }

  /**
   * `[^@]+\.[^@]+` on what follows the `@`. `seen` records that the run
   * `[^@]+` before the dot already holds a character. The matcher accepts
   * at the first dot that has a character before it and a non-`@`
   * character after it; Python's engine tries the last such dot of the
   * `@`-free run first, but the result does not depend on the rest.
   */
  predicate MatchDomain(t: string, seen: bool)
    decreases |t|
  {
    if t == [] || t[0] == '@' then false
    else if t[0] == '.' && seen && |t| >= 2 && t[1] != '@' then true
    else MatchDomain(t[1..], true)
  }

  /**
   * `[^@]+@` followed by the domain part. `[^@]+` can only end at the
   * first `@`, because no shorter run is followed by an `@`.
   */
  predicate MatchLocal(s: string, seen: bool)
    decreases |s|
  {
    if s == [] then false
    else if s[0] == '@' then seen && MatchDomain(s[1..], false)
    else MatchLocal(s[1..], true)
  }

  /**
   * `re.match(r"[^@]+@[^@]+\.[^@]+", s)` succeeds. A passing address holds
   * an `@` and at least five characters.
   */
  predicate IsEmail(s: string)
    ensures IsEmail(s) ==> '@' in s && |s| >= 5
  {
    EmailShortest(s);
    MatchLocal(s, false)
  }

  /**
   * `if email and not re.match(...)`: an empty address skips the check, and
   * a non-empty address that is accepted holds an `@`.
   */
  predicate EmailAccepted(s: string)
    ensures EmailAccepted(s) && s != [] ==> '@' in s && |s| >= 5
  {
    s == [] || IsEmail(s)
  }

  /**
   * The domain part matches with the dot at index `j`: at least one
   * character before it (or none, when one was already `seen`), all
   * `@`-free, and a non-`@` character after it.
   */
  ghost predicate DomainSplitAt(t: string, j: int, seen: bool) {
    (if seen then 0 <= j else 1 <= j) && j + 1 < |t| &&
    NoAt(t[..j]) && t[j] == '.' && t[j + 1] != '@'
  }

  /** The local part matches with its first `@` at index `i`. */
  ghost predicate LocalSplitAt(s: string, i: int, seen: bool) {
    (if seen then 0 <= i else 1 <= i) && i < |s| &&
    NoAt(s[..i]) && s[i] == '@' && MatchDomain(s[i + 1..], false)
  }

  /**
   * `s = a + "@" + b + "." + c + rest` with `a = s[..i]`, `b = s[i+1..j]`
   * and `c = [s[j+1]]`: `a` and `b` are non-empty and `@`-free and `c` is
   * one non-`@` character.
   */
  ghost predicate EmailSplitAt(s: string, i: int, j: int) {
    1 <= i && i + 1 < j && j + 1 < |s| &&
    NoAt(s[..i]) && s[i] == '@' && NoAt(s[i + 1..j]) && s[j] == '.' && s[j + 1] != '@'
  }

  ghost predicate EmailShape(s: string) {
    exists i, j :: EmailSplitAt(s, i, j)
  }

  lemma {:induction false} DomainIff(t: string, seen: bool)
    ensures MatchDomain(t, seen) <==> exists j :: DomainSplitAt(t, j, seen)
    decreases |t|
  {
    if t == [] || t[0] == '@' {
      forall j ensures !DomainSplitAt(t, j, seen) {
        if 0 < j <= |t| { assert t[..j][0] == t[0]; }
      }
    } else if t[0] == '.' && seen && |t| >= 2 && t[1] != '@' {
      assert DomainSplitAt(t, 0, seen);
    } else {
      DomainIff(t[1..], true);
      if MatchDomain(t, seen) {
        var j' :| DomainSplitAt(t[1..], j', true);
        assert t[..j' + 1] == [t[0]] + t[1..][..j'];
        assert DomainSplitAt(t, j' + 1, seen);
      }
      forall j | DomainSplitAt(t, j, seen) ensures MatchDomain(t[1..], true) {
        assert t[1..][..j - 1] == t[1..j];
        assert DomainSplitAt(t[1..], j - 1, true);
      }
    }
  }

  lemma {:induction false} LocalIff(s: string, seen: bool)
    ensures MatchLocal(s, seen) <==> exists i :: LocalSplitAt(s, i, seen)
    decreases |s|
  {
    if s == [] {
    } else if s[0] == '@' {
      forall i ensures LocalSplitAt(s, i, seen) <==> i == 0 && seen && MatchDomain(s[1..], false) {
        if 0 < i <= |s| { assert s[..i][0] == s[0]; }
      }
      if MatchLocal(s, seen) {
        assert LocalSplitAt(s, 0, seen);
      }
    } else {
      LocalIff(s[1..], true);
      if MatchLocal(s, seen) {
        var i' :| LocalSplitAt(s[1..], i', true);
        assert s[..i' + 1] == [s[0]] + s[1..][..i'];
        assert s[i' + 1 + 1..] == s[1..][i' + 1..];
        assert LocalSplitAt(s, i' + 1, seen);
      }
      forall i | LocalSplitAt(s, i, seen) ensures MatchLocal(s[1..], true) {
        assert s[1..][..i - 1] == s[1..i];
        assert s[1..][i - 1 + 1..] == s[i + 1..];
        assert LocalSplitAt(s[1..], i - 1, true);
      }
    }
  }

  /**
   * The e-mail check accepts exactly the strings that begin with a
   * non-empty `@`-free run, then `@`, then an `@`-free run holding a `.`
   * with at least one character before it and a non-`@` character after it.
   */
  lemma EmailIff(s: string)
    ensures IsEmail(s) <==> EmailShape(s)
  {
    LocalIff(s, false);
    if IsEmail(s) {
      var i :| LocalSplitAt(s, i, false);
      DomainIff(s[i + 1..], false);
      var d :| DomainSplitAt(s[i + 1..], d, false);
      assert s[i + 1..][..d] == s[i + 1..i + 1 + d];
      assert EmailSplitAt(s, i, i + 1 + d);
    }
    if EmailShape(s) {
      var i, j :| EmailSplitAt(s, i, j);
      assert s[i + 1..][..j - i - 1] == s[i + 1..j];
      assert DomainSplitAt(s[i + 1..], j - i - 1, false);
      DomainIff(s[i + 1..], false);
      assert LocalSplitAt(s, i, false);
    }
  }

  /**
   * Any `a + "@" + b + "." + c + rest` with `a`, `b`, `c` non-empty and
   * `@`-free passes, whatever `rest` holds: the pattern has no end anchor.
   */
  lemma EmailFromParts(a: string, b: string, c: string, rest: string)
    requires a != [] && b != [] && c != []
    requires NoAt(a) && NoAt(b) && NoAt(c)
    ensures IsEmail(a + "@" + b + "." + c + rest)
  {
    var s := a + "@" + b + "." + c + rest;
    var i, j := |a|, |a| + 1 + |b|;
    assert s[..i] == a;
    assert s[i + 1..j] == b;
    assert s[j + 1] == c[0];
    assert EmailSplitAt(s, i, j);
    EmailIff(s);
  }

  /** A string without any `@` is never an e-mail address. */
  lemma {:induction false} NoAtRejected(s: string, seen: bool)
    ensures NoAt(s) ==> !MatchLocal(s, seen)
    decreases |s|
  {
    if s != [] && NoAt(s) {
      assert s[0] != '@';
      assert NoAt(s[1..]) by {
        forall k | 0 <= k < |s[1..]| ensures s[1..][k] != '@' {
          assert s[1..][k] == s[k + 1];
        }
      }
      NoAtRejected(s[1..], true);
    }
  }

  /** The shortest strings the local-part matcher accepts, such as "a@b.c", have five characters. */
  lemma EmailShortest(s: string)
    ensures MatchLocal(s, false) ==> '@' in s && |s| >= 5
  {
    if MatchLocal(s, false) {
      LocalIff(s, false);
      var i :| LocalSplitAt(s, i, false);
      DomainIff(s[i + 1..], false);
      var j :| DomainSplitAt(s[i + 1..], j, false);
    }
  }

  /** "not-an-email" is rejected, while the empty address is accepted. */
  lemma EmailExamples()
    ensures !EmailAccepted("not-an-email")
    ensures EmailAccepted("")
  {
    NoAtRejected("not-an-email", false);
  }

  /** "ann@example.com" is accepted. */
  lemma EmailAcceptedExample()
    ensures IsEmail("ann@example.com")
  {
    var a, b, c: string := "ann", "example", "com";
    EmailFromParts(a, b, c, "");
    assert a + "@" + b + "." + c + "" == "ann@example.com";
  }
}
