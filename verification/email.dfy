/** `validate_email` (chapter9 codebase/utils.py): Python's `re.match`
    with the pattern `^[a-zA-Z0-9._%+-]+@[a-zA-Z0-9.-]+\.[a-zA-Z]{2,}$`.
    `re.match` anchors at the start; `$` matches at the end of the text
    and also just before a newline that ends it. */
module Email {
  import opened Text

  predicate IsAsciiLetter(c: char) {
    'a' <= c <= 'z' || 'A' <= c <= 'Z'
  }

  predicate IsAsciiDigit(c: char) {
    '0' <= c <= '9'
  }

  /** `[a-zA-Z0-9._%+-]` */
  predicate IsLocalChar(c: char) {
    IsAsciiLetter(c) || IsAsciiDigit(c) || c == '.' || c == '_' || c == '%' || c == '+' || c == '-'
  }

  /** `[a-zA-Z0-9.-]` */
  predicate IsDomainChar(c: char) {
    IsAsciiLetter(c) || IsAsciiDigit(c) || c == '.' || c == '-'
  }

  /** Every character of `t` from `a` up to `b` is a local-part character. */
  predicate LocalRun(t: string, a: nat, b: nat) {
    forall i :: a <= i < b && i < |t| ==> IsLocalChar(t[i])
  }

  predicate DomainRun(t: string, a: nat, b: nat) {
    forall i :: a <= i < b && i < |t| ==> IsDomainChar(t[i])
  }

  predicate LetterRun(t: string, a: nat, b: nat) {
    forall i :: a <= i < b && i < |t| ==> IsAsciiLetter(t[i])
  }

  /** `t` splits at `at` and `dot` as the unanchored pattern demands: a
      non-empty local part, `@`, a non-empty domain, `.`, and at least two
      letters up to the end. */
  predicate SplitsAt(t: string, at: nat, dot: nat) {
    && 0 < at && at + 1 < dot && dot + 2 < |t|
    && t[at] == '@' && t[dot] == '.'
    && LocalRun(t, 0, at) && DomainRun(t, at + 1, dot) && LetterRun(t, dot + 1, |t|)
  }

  /** The whole of `t` has the shape of an address. */
  ghost predicate Shaped(t: string) {
    exists at: nat, dot: nat :: SplitsAt(t, at, dot)
  }

  /** How many letters end `t` (the longest letter suffix). */
  function TrailingLetters(t: string, n: nat): (m: nat)
    requires n <= |t|
    ensures m <= n && LetterRun(t, n - m, n)
    ensures m < n ==> !IsAsciiLetter(t[n - m - 1])
  {
    if n > 0 && IsAsciiLetter(t[n - 1]) then 1 + TrailingLetters(t, n - 1) else 0
  }

  /** A decision procedure for `Shaped`: the `@` must be the first one,
      and the `.` must be the one just before the trailing letters. */
  function Matches(t: string): (b: bool)
    ensures b <==> Shaped(t)
  {
    var at := Find(t, "@", 0);
    var m := TrailingLetters(t, |t|);
    var dot := |t| - m - 1;
    var b := at > 0 && m >= 2 && at + 1 < dot && t[dot] == '.' && LocalRun(t, 0, at) && DomainRun(t, at + 1, dot);
    if b then
      FindFound(t, "@", 0);
      assert t[at..at + 1] == "@";
      assert SplitsAt(t, at, dot);
      b
    else
      assert !Shaped(t) by {
        if Shaped(t) {
          var at': nat, dot': nat :| SplitsAt(t, at', dot');
          SplitIsCanonical(t, at', dot');
        }
      }
      b
  }

  /** Any split is the one `Matches` looks at. */
  lemma SplitIsCanonical(t: string, at: nat, dot: nat)
    requires SplitsAt(t, at, dot)
    ensures Find(t, "@", 0) == at
    ensures TrailingLetters(t, |t|) == |t| - dot - 1
  {
    assert OccursAt(t, "@", at) by { assert t[at..at + 1] == "@"; }
    forall i | 0 <= i < at
      ensures !OccursAt(t, "@", i)
    {
      assert IsLocalChar(t[i]);
      assert t[i..i + 1][0] == t[i];
    }
    FindIsFirst(t, "@", at);
    TrailingLettersStop(t, |t|, dot);
  }

  lemma {:induction false} TrailingLettersStop(t: string, n: nat, dot: nat)
    requires dot < n <= |t| && !IsAsciiLetter(t[dot]) && LetterRun(t, dot + 1, n)
    ensures TrailingLetters(t, n) == n - dot - 1
  {
    if n > dot + 1 {
      TrailingLettersStop(t, n - 1, dot);
    }
  }

  /** `validate_email(email)`: the address, or the address followed by
      one final newline, has the shape. */
  function ValidateEmail(email: string): (r: bool)
    ensures r <==> Shaped(email) || (|email| > 0 && email[|email| - 1] == '\n' && Shaped(email[..|email| - 1]))
  {
    Matches(email) || (|email| > 0 && email[|email| - 1] == '\n' && Matches(email[..|email| - 1]))
  }

  /** An accepted address holds exactly one `@`: neither character class
      admits it. */
  lemma ExactlyOneAt(email: string)
    requires ValidateEmail(email)
    ensures exists at :: 0 <= at < |email| && email[at] == '@'
              && forall i :: 0 <= i < |email| && i != at ==> email[i] != '@'
  {
    var t := if Shaped(email) then email else email[..|email| - 1];
    var at: nat, dot: nat :| SplitsAt(t, at, dot);
    assert email[at] == '@';
    forall i | 0 <= i < |email| && i != at
      ensures email[i] != '@'
    {
      if i < |t| {
        assert t[i] == email[i];
        if i < at {
          assert IsLocalChar(t[i]);
        } else if i < dot {
          assert IsDomainChar(t[i]);
        } else if i > dot {
          assert IsAsciiLetter(t[i]);
        }
      }
    }
  }

  /** One newline after a valid address is accepted as well. */
  lemma TrailingNewlineAccepted(t: string)
    requires ValidateEmail(t) && (|t| == 0 || t[|t| - 1] != '\n')
    ensures ValidateEmail(t + "\n")
  {
    assert (t + "\n")[..|t|] == t;
  }

  /** What every address of the right shape starts and ends with. */
  lemma ShapedEnds(t: string)
    ensures Shaped(t) ==> |t| > 0 && IsLocalChar(t[0]) && IsAsciiLetter(t[|t| - 1])
  {
    if Shaped(t) {
      var at: nat, dot: nat :| SplitsAt(t, at, dot);
      assert IsLocalChar(t[0]) && IsAsciiLetter(t[|t| - 1]);
    }
  }

  /** A second newline is not. */
  lemma TwoNewlinesRejected(t: string)
    ensures !ValidateEmail(t + "\n\n")
  {
    var s := t + "\n\n";
    ShapedEnds(s);
    ShapedEnds(s[..|s| - 1]);
    assert s[..|s| - 1][|s| - 2] == '\n';
  }

  /** The match is anchored at the start: a leading character outside the
      local-part class, such as a space, rejects the address. */
  lemma LeadingOutsiderRejected(c: char, t: string)
    requires !IsLocalChar(c)
    ensures !ValidateEmail([c] + t)
  {
    var s := [c] + t;
    ShapedEnds(s);
    if |s| > 1 {
      ShapedEnds(s[..|s| - 1]);
      assert s[..|s| - 1][0] == c;
    } else {
      ShapedEnds(s[..0]);
    }
  }

  /** A typical address is accepted. */
  lemma PlainAddressAccepted(local: string, domain: string, tld: string)
    requires |local| > 0 && forall i :: 0 <= i < |local| ==> IsLocalChar(local[i])
    requires |domain| > 0 && forall i :: 0 <= i < |domain| ==> IsDomainChar(domain[i])
    requires |tld| >= 2 && forall i :: 0 <= i < |tld| ==> IsAsciiLetter(tld[i])
    ensures ValidateEmail(local + "@" + domain + "." + tld)
  {
    var t := local + "@" + domain + "." + tld;
    var at, dot := |local|, |local| + 1 + |domain|;
    assert forall i :: 0 <= i < at ==> t[i] == local[i];
    assert forall i :: at < i < dot ==> t[i] == domain[i - at - 1];
    assert forall i :: dot < i < |t| ==> t[i] == tld[i - dot - 1];
    assert SplitsAt(t, at, dot);
  }
}
