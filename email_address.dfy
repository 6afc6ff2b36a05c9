/** `validate_email` of scr/ui_functions/send_email_screen_function.py:
    `re.match(r'^[a-zA-Z0-9._%+-]+@[a-zA-Z0-9.-]+\.[a-zA-Z]{2,}$', email)`.
    The pattern is stated as a language (`MatchesPattern`), decided by a
    scan for the '@' and the last '.' (`Accepts`), and Python's `$`, which
    also matches just before a final newline, is kept. */
module EmailAddress {
  import opened Wrappers
  import opened PyText

  predicate IsLetter(c: char) {
    ('a' <= c <= 'z') || ('A' <= c <= 'Z')
  }

  /** `[a-zA-Z0-9._%+-]` */
  predicate IsLocalChar(c: char) {
    IsLetter(c) || IsDigit(c) || c == '.' || c == '_' || c == '%' || c == '+' || c == '-'
  }

  /** `[a-zA-Z0-9.-]` */
  predicate IsDomainChar(c: char) {
    IsLetter(c) || IsDigit(c) || c == '.' || c == '-'
  }

  /** `[a-zA-Z0-9._%+-]+` */
  predicate IsLocalPart(s: string) {
    |s| > 0 && forall i :: 0 <= i < |s| ==> IsLocalChar(s[i])
  }

  /** `[a-zA-Z0-9.-]+` */
  predicate IsDomainPart(s: string) {
    |s| > 0 && forall i :: 0 <= i < |s| ==> IsDomainChar(s[i])
  }

  /** `[a-zA-Z]{2,}` */
  predicate IsTopLevel(s: string) {
    |s| >= 2 && forall i :: 0 <= i < |s| ==> IsLetter(s[i])
  }

  /** The whole string is `local@domain.tld`. */
  ghost predicate MatchesPattern(s: string) {
    exists local, domain, tld ::
      IsLocalPart(local) && IsDomainPart(domain) && IsTopLevel(tld) && s == local + "@" + domain + "." + tld
  }

  /** The first position of `c` in `s`. */
  function IndexOf(s: string, c: char): (r: Option<nat>)
    ensures r.None? <==> c !in s
    ensures r.Some? ==> r.value < |s| && s[r.value] == c && c !in s[..r.value]
  {
    if s == [] then None
    else if s[0] == c then Some(0)
    else
      match IndexOf(s[1..], c)
      case None => None
      case Some(i) => assert s[..i + 1] == [s[0]] + s[1..][..i]; Some(i + 1)
  }

  /** The last position of `c` in `s`. */
  function LastIndexOf(s: string, c: char): (r: Option<nat>)
    ensures r.None? <==> c !in s
    ensures r.Some? ==> r.value < |s| && s[r.value] == c && c !in s[r.value + 1..]
  {
    if s == [] then None
    else if s[|s| - 1] == c then Some(|s| - 1)
    else
      var r := LastIndexOf(s[..|s| - 1], c);
      if r.Some? then assert s[r.value + 1..] == s[..|s| - 1][r.value + 1..] + [s[|s| - 1]]; r
      else r
  }

  datatype Parts = Parts(local: string, domain: string, tld: string)

  /** Cuts an address at its first '@' and at the last '.' after it. */
  function SplitAddress(s: string): (r: Option<Parts>)
    ensures r.Some? ==> s == r.value.local + "@" + r.value.domain + "." + r.value.tld
    ensures r.Some? ==> '@' !in r.value.local && '.' !in r.value.tld
  {
    match IndexOf(s, '@')
    case None => None
    case Some(a) =>
      var rest := s[a + 1..];
      match LastIndexOf(rest, '.')
      case None => None
      case Some(p) =>
        SplitAtMarks(s, a, p);
        Some(Parts(s[..a], rest[..p], rest[p + 1..]))
  }

  /** The pattern decided directly: the local part runs up to the first
      '@'; the top-level domain follows the last '.' after it. */
  predicate Accepts(s: string)
    ensures Accepts(s) ==> '@' in s && |s| >= 6
  {
    var r := SplitAddress(s);
    r.Some? && IsLocalPart(r.value.local) && IsDomainPart(r.value.domain) && IsTopLevel(r.value.tld)
  }

  /** `validate_email(email)`: the pattern matches the whole string, or the
      whole string but a final "\n" (Python's `$`). */
  predicate ValidateEmail(email: string)
    ensures ValidateEmail(email) ==> '@' in email && |email| >= 6
  {
    Accepts(email) || (|email| > 0 && email[|email| - 1] == '\n' && Accepts(email[..|email| - 1]))
  }

  lemma AcceptsIsSound(s: string)
    requires Accepts(s)
    ensures MatchesPattern(s)
  {
    var r := SplitAddress(s).value;
    assert s == r.local + "@" + r.domain + "." + r.tld;
  }

  /** Cutting `s` at an '@' and at a '.' after it gives back `s`. */
  lemma SplitAtMarks(s: string, a: nat, p: nat)
    requires a < |s| && s[a] == '@' && p < |s[a + 1..]| && s[a + 1..][p] == '.'
    ensures s == s[..a] + "@" + s[a + 1..][..p] + "." + s[a + 1..][p + 1..]
  {
    var rest := s[a + 1..];
    assert s[..a + 1] == s[..a] + "@";
    assert s[..a + 1 + p] == s[..a + 1] + rest[..p];
    assert s[..a + 2 + p] == s[..a + 1 + p] + ".";
    assert s == s[..a + 2 + p] + rest[p + 1..];
  }

  /** A position holding `c` with no `c` before it is the first one. */
  lemma IndexOfIs(s: string, c: char, k: nat)
    requires k < |s| && s[k] == c && c !in s[..k]
    ensures IndexOf(s, c) == Some(k)
  {
  }

  /** A position holding `c` with no `c` after it is the last one. */
  lemma LastIndexOfIs(s: string, c: char, k: nat)
    requires k < |s| && s[k] == c && c !in s[k + 1..]
    ensures LastIndexOf(s, c) == Some(k)
  {
  }

  /** The first '@' of `local + "@" + rest` is the one after `local`. */
  lemma FirstAtAfter(s: string, local: string, rest: string)
    requires s == local + "@" + rest
    requires forall i :: 0 <= i < |local| ==> IsLocalChar(local[i])
    ensures IndexOf(s, '@') == Some(|local|)
    ensures s[..|local|] == local && s[|local| + 1..] == rest
  {
    assert s[..|local|] == local;
    IndexOfIs(s, '@', |local|);
    assert s[|local| + 1..] == rest;
  }

  /** The last '.' of `domain + "." + tld` is the one before `tld`. */
  lemma LastDotBefore(rest: string, domain: string, tld: string)
    requires rest == domain + "." + tld
    requires forall i :: 0 <= i < |tld| ==> IsLetter(tld[i])
    ensures LastIndexOf(rest, '.') == Some(|domain|)
    ensures rest[..|domain|] == domain && rest[|domain| + 1..] == tld
  {
    assert rest[|domain| + 1..] == tld;
    assert '.' !in tld by {
      forall i | 0 <= i < |tld| ensures tld[i] != '.' {
        assert IsLetter(tld[i]);
      }
    }
    LastIndexOfIs(rest, '.', |domain|);
    assert rest[..|domain|] == domain;
  }

  /** Cutting `local@domain.tld` gives back its three parts. */
  lemma SplitOfParts(s: string, local: string, domain: string, tld: string)
    requires s == local + "@" + domain + "." + tld
    requires forall i :: 0 <= i < |local| ==> IsLocalChar(local[i])
    requires forall i :: 0 <= i < |tld| ==> IsLetter(tld[i])
    ensures SplitAddress(s) == Some(Parts(local, domain, tld))
  {
    var rest := domain + "." + tld;
    assert s == local + "@" + rest;
    FirstAtAfter(s, local, rest);
    LastDotBefore(rest, domain, tld);
  }

  lemma AcceptsIsComplete(s: string)
    requires MatchesPattern(s)
    ensures Accepts(s)
  {
    var local, domain, tld :|
      IsLocalPart(local) && IsDomainPart(domain) && IsTopLevel(tld) && s == local + "@" + domain + "." + tld;
    SplitOfParts(s, local, domain, tld);
  }

  /** `validate_email` accepts exactly the strings `local@domain.tld`, with
      or without one trailing newline. */
  lemma ValidateEmailMatchesPattern(email: string)
    ensures ValidateEmail(email) <==>
              MatchesPattern(email) ||
              (|email| > 0 && email[|email| - 1] == '\n' && MatchesPattern(email[..|email| - 1]))
  {
    if Accepts(email) { AcceptsIsSound(email); }
    if MatchesPattern(email) { AcceptsIsComplete(email); }
    if |email| > 0 && email[|email| - 1] == '\n' {
      var body := email[..|email| - 1];
      if Accepts(body) { AcceptsIsSound(body); }
      if MatchesPattern(body) { AcceptsIsComplete(body); }
    }
  }

  /** An accepted address holds exactly one '@': neither character class
      contains it. */
  lemma AcceptedHasOneAt(s: string)
    requires Accepts(s)
    ensures multiset(s)['@'] == 1
  {
    var r := SplitAddress(s).value;
    NoAt(r.local);
    NoAt(r.domain);
    NoAt(r.tld);
    assert multiset(s) == multiset(r.local) + multiset("@") + multiset(r.domain) + multiset(".") + multiset(r.tld);
  }

  lemma NoAt(s: string)
    requires forall i :: 0 <= i < |s| ==> IsLocalChar(s[i])
    ensures multiset(s)['@'] == 0
  {
    assert '@' !in s;
  }

  /** `send_email` strips the input first, and a stripped string never ends
      in a newline, so the `$` quirk never matters there. */
  lemma StrippedInputNeedsNoNewline(text: string)
    ensures ValidateEmail(Strip(text)) <==> Accepts(Strip(text))
  {
    var s := Strip(text);
    if |s| > 0 {
      assert !IsSpace(s[|s| - 1]);
    }
  }
}
