/** The two custom validators of the order schema (models/Order.js): the
    phone-number pattern and the e-mail pattern. Each is stated once as a
    predicate that reads the regular expression directly, and once as a
    single left-to-right scan proved to decide it. Both run on the value
    after the schema's `trim` (and, for the e-mail, `lowercase`) setters. */
module OrderValidators {
  import opened Common

  // ---------------------------------------------------------------------
  // Phone numbers
  // ---------------------------------------------------------------------

  /** `/^\+?[1-9]\d{1,14}$/`: an optional plus sign, a digit other than
      zero, then one to fourteen further digits. The plus is never a digit,
      so whether it is consumed is decided by the first character alone. */
  predicate E164Shape(s: string) {
    var digits := if |s| > 0 && s[0] == '+' then s[1..] else s;
    2 <= |digits| <= 15 && AllDigits(digits) && digits[0] != '0'
  }

  /** `/^[0-9]{10,15}$/`: ten to fifteen digits, a leading zero allowed. */
  predicate LocalShape(s: string) {
    10 <= |s| <= 15 && AllDigits(s)
  }

  /** The phone validator: either pattern. */
  predicate PhoneValid(s: string) {
    E164Shape(s) || LocalShape(s)
  }

  /** The phone validator as one pass over the string. */
  method CheckPhone(s: string) returns (ok: bool)
    ensures ok <==> PhoneValid(s)
  {
    var start := if |s| > 0 && s[0] == '+' then 1 else 0;
    var i := start;
    while i < |s|
      invariant start <= i <= |s|
      invariant AllDigits(s[start..i])
    {
      if !IsDigit(s[i]) {
        assert !AllDigits(s[start..]) by { assert s[start..][i - start] == s[i]; }
        return false;
      }
      assert s[start..i + 1] == s[start..i] + [s[i]];
      i := i + 1;
    }
    assert s[start..] == s[start..i];
    var n := |s| - start;
    if start == 1 {
      assert !IsDigit(s[0]);
      ok := 2 <= n <= 15 && s[1] != '0';
    } else {
      ok := (2 <= n <= 15 && s[0] != '0') || 10 <= n <= 15;
    }
  }

  /** Whatever the validator accepts is at most fifteen digits behind an
      optional plus: no letters, no inner spaces, no sixteenth digit. */
  lemma PhoneValidBounds(s: string)
    requires PhoneValid(s)
    ensures 2 <= |s| <= 16
    ensures forall i :: 0 <= i < |s| ==> IsDigit(s[i]) || (i == 0 && s[i] == '+')
    ensures NoSpace(s)
  {
    if |s| > 0 && s[0] == '+' {
      forall i | 1 <= i < |s| ensures IsDigit(s[i]) {
        assert s[1..][i - 1] == s[i];
      }
    }
  }

  /** Sixteen digits or more are refused, with or without a plus. */
  lemma PhoneRejectsLong(s: string)
    requires |s| > 16 || (|s| == 16 && s[0] != '+')
    ensures !PhoneValid(s)
  {
  }

  /** The two patterns overlap: a number of ten to fifteen digits that does
      not start with zero passes both, while a short number passes only the
      first and a leading zero only the second. */
  lemma PhoneExamples()
    ensures PhoneValid("+14155552671")
    ensures PhoneValid("0123456789")
    ensures PhoneValid("12")
    ensures !PhoneValid("012345678")
    ensures !PhoneValid("+0123456789")
    ensures !PhoneValid("555 123 4567")
    ensures !PhoneValid("1234567890123456")
  {
    assert !AllDigits("555 123 4567") by { assert !IsDigit("555 123 4567"[3]); }
    assert "+0123456789"[1..][0] == '0';
    assert !AllDigits("+0123456789") by { assert !IsDigit("+0123456789"[0]); }
  }

  // ---------------------------------------------------------------------
  // E-mail addresses
  // ---------------------------------------------------------------------

  /** Positions `i` of an `@` and `j` of a `.` that split `s` the way
      `/^\S+@\S+\.\S+$/` does: something before the `@`, something between
      it and the dot, something after the dot. */
  predicate EmailSplitAt(s: string, i: int, j: int) {
    1 <= i && i + 2 <= j && j + 2 <= |s| && s[i] == '@' && s[j] == '.'
  }

  /** The e-mail validator: no white space anywhere, and a split as above.
      (`\S` matches `@` and `.` too, so the pieces may contain them.) */
  predicate EmailShape(s: string) {
    NoSpace(s) && exists i, j :: 0 <= i < j < |s| && EmailSplitAt(s, i, j)
  }

  /** Three non-empty pieces without white space always form an accepted
      address. */
  lemma EmailOfParts(a: string, b: string, c: string)
    requires |a| > 0 && |b| > 0 && |c| > 0
    requires NoSpace(a) && NoSpace(b) && NoSpace(c)
    ensures EmailShape(a + "@" + b + "." + c)
  {
    var s := a + "@" + b + "." + c;
    assert EmailSplitAt(s, |a|, |a| + 1 + |b|);
  }

  /** Conversely, every accepted address is three such pieces. */
  lemma EmailParts(s: string) returns (a: string, b: string, c: string)
    requires EmailShape(s)
    ensures s == a + "@" + b + "." + c
    ensures |a| > 0 && |b| > 0 && |c| > 0
    ensures NoSpace(a) && NoSpace(b) && NoSpace(c)
  {
    var i, j :| 0 <= i < j < |s| && EmailSplitAt(s, i, j);
    a, b, c := s[..i], s[i + 1..j], s[j + 1..];
    assert s == s[..i] + [s[i]] + s[i + 1..j] + [s[j]] + s[j + 1..];
  }

  /** The e-mail validator as one pass over the string: remember the first
      `@` that has something before it, and look for a dot at least two
      places after it with something following. */
  method CheckEmail(s: string) returns (ok: bool)
    ensures ok <==> EmailShape(s)
  {
    var at := -1;
    var found := false;
    var k := 0;
    while k < |s|
      invariant 0 <= k <= |s|
      invariant NoSpace(s[..k])
      invariant at == -1 ==> forall i :: 1 <= i < k ==> s[i] != '@'
      invariant at != -1 ==> 1 <= at < k && s[at] == '@' && forall i :: 1 <= i < at ==> s[i] != '@'
      invariant found <==> exists i, j :: 0 <= i < j < k && EmailSplitAt(s, i, j)
    {
      if IsSpace(s[k]) {
        assert !NoSpace(s);
        return false;
      }
      if !found && s[k] == '.' && at != -1 && at + 2 <= k && k + 2 <= |s| {
        assert EmailSplitAt(s, at, k);
        found := true;
      }
      if at == -1 && s[k] == '@' && k >= 1 {
        at := k;
      }
      assert s[..k + 1] == s[..k] + [s[k]];
      k := k + 1;
    }
    assert s[..k] == s;
    ok := found;
  }

  lemma EmailExamples()
    ensures EmailShape("ana@example.com")
    ensures EmailShape("a@b.c")
    ensures !EmailShape("a@.c")
    ensures !EmailShape("ana@example")
    ensures !EmailShape("ana smith@example.com")
  {
    EmailOfParts("ana", "example", "com");
    assert "ana" + "@" + "example" + "." + "com" == "ana@example.com";
    EmailOfParts("a", "b", "c");
    assert "a" + "@" + "b" + "." + "c" == "a@b.c";
    assert "a@.c"[2] != '@' && "a@.c"[3] != '.';
    assert !NoSpace("ana smith@example.com") by { assert IsSpace("ana smith@example.com"[3]); }
    assert forall j :: 0 <= j < |"ana@example"| ==> "ana@example"[j] != '.';
  }
}
