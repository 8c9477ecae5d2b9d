/** The `@ValidEmail` constraint: the anchored pattern
      local "@" domain "." tld
    with local over [a-zA-Z0-9._%+-]+, domain over [a-zA-Z0-9.-]+ and tld over [a-zA-Z]{2,6}.
    `IsValidEmail` decides it by scanning the string; `MatchesPattern` is the language of the
    pattern, stated as the existence of the two split points, and the two are proved equal. */
module Email {
  import opened Outcomes
  import opened Constraints

  /** `[a-zA-Z0-9._%+-]` */
  predicate IsLocalChar(c: char) {
    IsAsciiLetter(c) || IsAsciiDigit(c) || c == '.' || c == '_' || c == '%' || c == '+' || c == '-'
  }

  /** `[a-zA-Z0-9.-]` */
  predicate IsDomainChar(c: char) {
    IsAsciiLetter(c) || IsAsciiDigit(c) || c == '.' || c == '-'
  }

  predicate AllLocal(s: string) {
    forall i | 0 <= i < |s| :: IsLocalChar(s[i])
  }

  predicate AllDomain(s: string) {
    forall i | 0 <= i < |s| :: IsDomainChar(s[i])
  }

  /** `[a-zA-Z]{2,6}` */
  predicate IsTopLevel(s: string) {
    2 <= |s| <= 6 && forall i | 0 <= i < |s| :: IsAsciiLetter(s[i])
  }

  // ---------------------------------------------------------------------------
  // The language of the pattern

  /** `s` is local + "@" + domain + "." + tld with the '@' at `at` and the '.' at `dot`. */
  ghost predicate SplitsAt(s: string, at: int, dot: int) {
    && 0 < at && at + 1 < dot && dot < |s|
    && s[at] == '@' && s[dot] == '.'
    && AllLocal(s[..at])
    && AllDomain(s[at + 1..dot])
    && IsTopLevel(s[dot + 1..])
  }

  /** The whole string matches the pattern (it is anchored at both ends). */
  ghost predicate MatchesPattern(s: string) {
    exists at, dot :: SplitsAt(s, at, dot)
  }

  // ---------------------------------------------------------------------------
  // The decision procedure

  /** The position of the first `c` in `s`. */
  function IndexOf(s: string, c: char): (r: Option<nat>)
    ensures r.None? ==> c !in s
    ensures r.Some? ==> r.value < |s| && s[r.value] == c && c !in s[..r.value]
  {
    if |s| == 0 then None
    else if s[0] == c then Some(0)
    else
      match IndexOf(s[1..], c)
      case None => None
      case Some(i) =>
        assert s[..i + 1] == [s[0]] + s[1..][..i];
        Some(i + 1)
  }

  /** The position of the last `c` in `s`. */
  function LastIndexOf(s: string, c: char): (r: Option<nat>)
    ensures r.None? ==> c !in s
    ensures r.Some? ==> r.value < |s| && s[r.value] == c && c !in s[r.value + 1..]
  {
    if |s| == 0 then None
    else if s[|s| - 1] == c then Some(|s| - 1)
    else
      var init := s[..|s| - 1];
      assert s == init + [s[|s| - 1]];
      match LastIndexOf(init, c)
      case None => None
      case Some(i) =>
        assert s[i + 1..] == init[i + 1..] + [s[|s| - 1]];
        Some(i)
  }

  /** The domain and top-level part after the '@': the tld starts after the last '.', since
      no tld letter is a '.'. */
  predicate IsDomainAndTopLevel(r: string) {
    match LastIndexOf(r, '.')
    case None => false
    case Some(dot) => 0 < dot && AllDomain(r[..dot]) && IsTopLevel(r[dot + 1..])
  }

  /** The pattern of `ValidEmail`: the local part ends at the first '@', since no local
      character is an '@'. */
  predicate IsValidEmail(s: string) {
    match IndexOf(s, '@')
    case None => false
    case Some(at) => 0 < at && AllLocal(s[..at]) && IsDomainAndTopLevel(s[at + 1..])
  }

  // ---------------------------------------------------------------------------
  // Correctness of the decision procedure

  /** The scan for the first `c` stops at a `c` with none before it. */
  lemma {:induction false} IndexOfIs(s: string, c: char, k: nat)
    requires k < |s| && s[k] == c && c !in s[..k]
    ensures IndexOf(s, c) == Some(k)
  {
    assert s[k] in s;
  }

  /** The scan for the last `c` stops at a `c` with none after it. */
  lemma {:induction false} LastIndexOfIs(s: string, c: char, k: nat)
    requires k < |s| && s[k] == c && c !in s[k + 1..]
    ensures LastIndexOf(s, c) == Some(k)
  {
    assert s[k] in s;
  }

  /** Any split the pattern allows is the one the scan finds. */
  lemma {:induction false} SplitIsValid(s: string, at: int, dot: int)
    requires SplitsAt(s, at, dot)
    ensures IsValidEmail(s)
  {
    var local := s[..at];
    assert '@' !in local by {
      forall i | 0 <= i < at ensures local[i] != '@' {
        assert IsLocalChar(local[i]);
      }
    }
    IndexOfIs(s, '@', at);
    var r := s[at + 1..];
    var d := dot - at - 1;
    var tld := s[dot + 1..];
    assert r[..d] == s[at + 1..dot];
    assert r[d + 1..] == tld;
    assert '.' !in tld by {
      forall i | 0 <= i < |tld| ensures tld[i] != '.' {
        assert IsAsciiLetter(tld[i]);
      }
    }
    LastIndexOfIs(r, '.', d);
  }

  /** What the scan accepts is a split the pattern allows. */
  lemma {:induction false} ValidHasSplit(s: string) returns (at: int, dot: int)
    requires IsValidEmail(s)
    ensures SplitsAt(s, at, dot)
  {
    at := IndexOf(s, '@').value;
    var r := s[at + 1..];
    var d := LastIndexOf(r, '.').value;
    dot := at + 1 + d;
    assert s[at + 1..dot] == r[..d];
    assert s[dot + 1..] == r[d + 1..];
  }

  /** The scan accepts exactly the strings the anchored pattern matches. */
  lemma ValidEmailIffPattern(s: string)
    ensures IsValidEmail(s) <==> MatchesPattern(s)
  {
    if IsValidEmail(s) {
      var at, dot := ValidHasSplit(s);
    }
    if MatchesPattern(s) {
      var at, dot :| SplitsAt(s, at, dot);
      SplitIsValid(s, at, dot);
    }
  }

  /** A matching address contains exactly one '@': neither the local nor the domain nor the
      top-level character set contains one. */
  lemma ValidEmailHasOneAt(s: string)
    requires IsValidEmail(s)
    ensures multiset(s)['@'] == 1
  {
    var at, dot := ValidHasSplit(s);
    var local, rest := s[..at], s[at + 1..];
    assert s == local + [s[at]] + rest;
    assert '@' !in local by {
      forall i | 0 <= i < |local| ensures local[i] != '@' {
        assert IsLocalChar(local[i]);
      }
    }
    assert '@' !in rest by {
      forall i | 0 <= i < |rest| ensures rest[i] != '@' {
        if at + 1 + i < dot {
          assert IsDomainChar(s[at + 1..dot][i]);
        } else if at + 1 + i > dot {
          assert IsAsciiLetter(s[dot + 1..][i - (dot - at)]);
        }
      }
    }
    assert multiset(s) == multiset(local) + multiset([s[at]]) + multiset(rest);
  }

  /** A matching address has at least six characters (one local, '@', one domain, '.', two
      tld letters) and starts with a character above U+0020, so it is never blank. */
  lemma ValidEmailIsLongAndNotBlank(s: string)
    requires IsValidEmail(s)
    ensures 6 <= |s|
    ensures !IsBlank(s)
  {
    var at, dot := ValidHasSplit(s);
    assert IsLocalChar(s[..at][0]);
    NotBlankWitness(s, 0);
  }

  /** A matching address ends with '.' and two to six ASCII letters, and the part between
      '@' and that '.' is a non-empty run of domain characters. */
  lemma ValidEmailEnding(s: string)
    requires IsValidEmail(s)
    ensures exists at, dot ::
      && 0 < at && at + 1 < dot < |s|
      && s[at] == '@' && AllDomain(s[at + 1..dot])
      && s[dot] == '.' && 2 <= |s| - dot - 1 <= 6 && IsTopLevel(s[dot + 1..])
  {
    var at, dot := ValidHasSplit(s);
    assert 2 <= |s| - dot - 1 <= 6 && s[dot] == '.' && IsTopLevel(s[dot + 1..]);
  }
}
