/** The email check of the waitlist service: a whole-string match of
    `^[A-Za-z0-9+_.-]+@[A-Za-z0-9.-]+$`, with an absent (null) address rejected.
    `Matches` is the declarative reading of the pattern, `MatchesPattern` the
    scanning implementation, and the lemmas state what the pattern means. */
module EmailValidation {

  import opened Wrappers

  /** A character of the local-part class `[A-Za-z0-9+_.-]`. */
  predicate LocalChar(c: char) {
    ('A' <= c <= 'Z') || ('a' <= c <= 'z') || ('0' <= c <= '9')
    || c == '+' || c == '_' || c == '.' || c == '-'
  }

  /** A character of the domain class `[A-Za-z0-9.-]`. */
  predicate DomainChar(c: char) {
    ('A' <= c <= 'Z') || ('a' <= c <= 'z') || ('0' <= c <= '9')
    || c == '.' || c == '-'
  }

  /** `s` splits at index `i` into `[L]+ @ [D]+`: a non-empty local part, the
      `@` itself, and a non-empty domain, each part drawn from its class. */
  predicate SplitsAt(s: string, i: int) {
    0 < i < |s| - 1 && s[i] == '@'
    && (forall j :: 0 <= j < i ==> LocalChar(s[j]))
    && (forall j :: i < j < |s| ==> DomainChar(s[j]))
  }

  /** The whole string matches the pattern. */
  predicate Matches(s: string) {
    exists i :: 0 <= i < |s| && SplitsAt(s, i)
  }

  /** The service's check: null is rejected, anything else must match. */
  predicate IsValidEmail(email: Option<string>) {
    email.Some? && Matches(email.value)
  }

  /** Number of occurrences of `c` in `s`. */
  function Occurrences(s: string, c: char): (n: nat)
    ensures n <= |s|
  {
    if s == [] then 0 else (if s[0] == c then 1 else 0) + Occurrences(s[1..], c)
  }

  /** Index of the first `c` in `s`, or `|s|` when there is none. */
  function FirstIndex(s: string, c: char): (k: nat)
    ensures k <= |s|
    ensures k < |s| ==> s[k] == c
    ensures forall j :: 0 <= j < k ==> s[j] != c
  {
    if s == [] then 0 else if s[0] == c then 0 else 1 + FirstIndex(s[1..], c)
  }

  /** Scans `s` once, left to right, as the pattern's matcher would: the
      local part until the first `@`, then the domain to the end. */
  method MatchesPattern(s: string) returns (ok: bool)
    ensures ok == Matches(s)
  {
    var seenAt := false;
    var at := 0;
    var i := 0;
    while i < |s|
      invariant 0 <= i <= |s|
      invariant !seenAt ==> forall j :: 0 <= j < i ==> LocalChar(s[j])
      invariant seenAt ==> 0 < at < i && s[at] == '@'
      invariant seenAt ==> forall j :: 0 <= j < at ==> LocalChar(s[j])
      invariant seenAt ==> forall j :: at < j < i ==> DomainChar(s[j])
    {
      var c := s[i];
      if !seenAt {
        if c == '@' {
          if i == 0 {
            NoSplitAtStart(s);
            return false;
          }
          seenAt, at := true, i;
        } else if !LocalChar(c) {
          NoSplitBefore(s, i);
          return false;
        }
      } else if !DomainChar(c) {
        NoSplitAfter(s, at, i);
        return false;
      }
      i := i + 1;
    }
    if !seenAt {
      ok := false;
      forall k | 0 <= k < |s| ensures !SplitsAt(s, k) {
        assert LocalChar(s[k]);
      }
    } else {
      ok := at < |s| - 1;
      if ok {
        assert SplitsAt(s, at);
      } else {
        forall k | 0 <= k < |s| ensures !SplitsAt(s, k) {
          SplitIsUnique(s, at, k);
        }
      }
    }
  }

  /** Neither class contains `@`, so a match has exactly one split point:
      the first `@` of the string. */
  lemma SplitIsUnique(s: string, i: int, k: int)
    requires 0 <= i < |s| && s[i] == '@'
    requires forall j :: 0 <= j < i ==> LocalChar(s[j])
    requires 0 <= k < |s|
    ensures SplitsAt(s, k) ==> k == i
  {
  }

  /** A string whose first character is `@` has an empty local part. */
  lemma NoSplitAtStart(s: string)
    requires 0 < |s| && s[0] == '@'
    ensures !Matches(s)
  {
  }

  /** A character outside the local class, met before any `@`, cannot be
      part of a match. */
  lemma NoSplitBefore(s: string, i: int)
    requires 0 <= i < |s| && s[i] != '@' && !LocalChar(s[i])
    requires forall j :: 0 <= j < i ==> LocalChar(s[j])
    ensures !Matches(s)
  {
  }

  /** A character outside the domain class after the first `@` cannot be
      part of a match. */
  lemma NoSplitAfter(s: string, at: int, i: int)
    requires 0 <= at < i < |s| && s[at] == '@' && !DomainChar(s[i])
    requires forall j :: 0 <= j < at ==> LocalChar(s[j])
    ensures !Matches(s)
  {
  }

  lemma {:induction false} OccurrencesAppend(a: string, b: string, c: char)
    ensures Occurrences(a + b, c) == Occurrences(a, c) + Occurrences(b, c)
  {
    if a == [] {
      assert a + b == b;
    } else {
      assert (a + b)[1..] == a[1..] + b;
      OccurrencesAppend(a[1..], b, c);
    }
  }

  lemma {:induction false} OccurrencesNone(s: string, c: char)
    requires forall j :: 0 <= j < |s| ==> s[j] != c
    ensures Occurrences(s, c) == 0
  {
    if s != [] {
      OccurrencesNone(s[1..], c);
    }
  }

  /** The first `@` of a matching string is its split point, and it is the
      only `@` in the string. */
  lemma {:induction false} MatchHasOneAt(s: string, k: int)
    requires 0 <= k < |s| && SplitsAt(s, k)
    ensures FirstIndex(s, '@') == k
    ensures Occurrences(s, '@') == 1
  {
    var i := FirstIndex(s, '@');
    assert i < k ==> LocalChar(s[i]);
    assert s == s[..k] + [s[k]] + s[k + 1..];
    forall j | 0 <= j < k ensures s[..k][j] != '@' {
      assert LocalChar(s[j]);
    }
    OccurrencesNone(s[..k], '@');
    var d := s[k + 1..];
    forall j | 0 <= j < |d| ensures d[j] != '@' {
      assert d[j] == s[k + 1 + j] && DomainChar(s[k + 1 + j]);
    }
    OccurrencesNone(d, '@');
    OccurrencesAppend(s[..k] + [s[k]], d, '@');
    OccurrencesAppend(s[..k], [s[k]], '@');
  }

  /** The pattern means: exactly one `@`, at neither end, with the local
      class before it and the domain class after it (both directions). */
  lemma MatchesIffExactlyOneAt(s: string)
    ensures Matches(s) <==>
      (Occurrences(s, '@') == 1
       && var i := FirstIndex(s, '@');
          0 < i < |s| - 1
          && (forall j :: 0 <= j < i ==> LocalChar(s[j]))
          && (forall j :: i < j < |s| ==> DomainChar(s[j])))
  {
    if Matches(s) {
      var k :| 0 <= k < |s| && SplitsAt(s, k);
      MatchHasOneAt(s, k);
    } else {
      assert !SplitsAt(s, FirstIndex(s, '@')) || FirstIndex(s, '@') == |s|;
    }
  }

  /** The empty string and null are rejected: both `+` need a character. */
  lemma RejectsNullAndEmpty()
    ensures !IsValidEmail(None)
    ensures !IsValidEmail(Some(""))
  {
  }

  /** No trimming or other normalisation: one character outside both classes
      (a space, a tab, a leading or trailing blank) rejects the address. */
  lemma RejectsForeignChar(s: string, k: int)
    requires 0 <= k < |s| && s[k] != '@' && !LocalChar(s[k]) && !DomainChar(s[k])
    ensures !Matches(s)
  {
  }

  /** The domain class has no `+` or `_`: either one after the `@` rejects. */
  lemma RejectsPlusOrUnderscoreInDomain(s: string, at: int, k: int)
    requires 0 <= at < k < |s| && s[at] == '@' && (s[k] == '+' || s[k] == '_')
    ensures !Matches(s)
  {
  }

  /** The pattern is permissive: `a@b` has no dot in its domain and passes. */
  lemma AcceptsShortAddress()
    ensures IsValidEmail(Some("a@b"))
  {
    assert SplitsAt("a@b", 1);
  }
}
