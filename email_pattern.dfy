/** The e-mail pattern of the logon forms,
      ^[_a-z0-9-]+(\.[_a-z0-9-]+)*@[a-z0-9-]+(\.[a-z0-9-]+)*(\.[a-z]{2,4})$
    as a recogniser (`Matches`), a definition that follows the pattern's
    concatenation literally (`InPatternLanguage`), and a description in
    plain terms (`IsWellFormedAddress`), with lemmas tying the three
    together. */
module EmailPattern {
  import opened Wrappers
  import opened Collections

  /** The two repeated character classes: `[_a-z0-9-]` before the `@`,
      `[a-z0-9-]` after it. */
  datatype CharClass = LocalClass | LabelClass

  predicate InClass(k: CharClass, c: char) {
    'a' <= c <= 'z' || '0' <= c <= '9' || c == '-' || (k == LocalClass && c == '_')
  }

  /** Every character any part of the pattern admits. */
  predicate IsPatternChar(c: char) {
    InClass(LocalClass, c) || c == '.' || c == '@'
  }

  /** `[a-z]{2,4}`, the final label. */
  predicate IsTld(t: string) {
    2 <= |t| <= 4 && forall i :: 0 <= i < |t| ==> 'a' <= t[i] <= 'z'
  }

  /** `s` matches `C+(\.C+)*` for the class `C` denoted by `k`. */
  predicate DotRun(s: string, k: CharClass)
    decreases |s|
  {
    |s| > 0 && InClass(k, s[0]) &&
    (|s| == 1 || (InClass(k, s[1]) && DotRun(s[1..], k)) || (s[1] == '.' && DotRun(s[2..], k)))
  }

  /** The index of the first `c` in `s`. */
  function IndexOf(s: string, c: char): (r: Option<nat>)
    ensures r.Some? ==> r.value < |s| && s[r.value] == c && forall j :: 0 <= j < r.value ==> s[j] != c
    ensures r.None? <==> forall j :: 0 <= j < |s| ==> s[j] != c
  {
    FirstIndex(s, (x: char) => x == c)
  }

  /** The index of the last `c` in `s`. */
  function LastIndexOf(s: string, c: char): (r: Option<nat>)
    ensures r.Some? ==> r.value < |s| && s[r.value] == c && forall j :: r.value < j < |s| ==> s[j] != c
    ensures r.None? <==> forall j :: 0 <= j < |s| ==> s[j] != c
    decreases |s|
  {
    if |s| == 0 then None
    else if s[|s| - 1] == c then Some(|s| - 1)
    else LastIndexOf(s[..|s| - 1], c)
  }

  /** The part after the `@`: labels, then a dot and the final label. */
  predicate DomainMatches(d: string) {
    match LastIndexOf(d, '.')
    case None => false
    case Some(j) => DotRun(d[..j], LabelClass) && IsTld(d[j + 1..])
  }

  /** The pattern's verdict on `s`, with `$` read as "end of input". */
  predicate Matches(s: string) {
    match IndexOf(s, '@')
    case None => false
    case Some(i) => DotRun(s[..i], LocalClass) && DomainMatches(s[i + 1..])
  }

  /** The pattern as a concatenation: local run, `@`, label run, `.`, final label. */
  ghost predicate InPatternLanguage(s: string) {
    exists i, j :: PatternSplit(s, i, j)
  }

  /** `s` is local run, `@` at `i`, label run, `.` at `j`, final label. */
  predicate PatternSplit(s: string, i: int, j: int) {
    0 <= i < j < |s| && s[i] == '@' && s[j] == '.' &&
    DotRun(s[..i], LocalClass) && DotRun(s[i + 1..j], LabelClass) && IsTld(s[j + 1..])
  }

  /** Non-empty, over `C` and `.`, no dot at either end, no two dots in a row:
      a non-empty sequence of non-empty dot-separated segments. */
  predicate DotShape(s: string, k: CharClass) {
    |s| > 0 && s[0] != '.' && s[|s| - 1] != '.' &&
    (forall i :: 0 <= i < |s| ==> InClass(k, s[i]) || s[i] == '.') &&
    (forall i :: 0 <= i < |s| - 1 ==> s[i] == '.' ==> s[i + 1] != '.')
  }

  /** At least two dot-separated labels, the last one a top-level domain. */
  predicate DomainShape(d: string) {
    DotShape(d, LabelClass) && LastIndexOf(d, '.').Some? &&
    IsTld(d[LastIndexOf(d, '.').value + 1..])
  }

  function IsAt(c: char): bool { c == '@' }

  /** Exactly one `@`, a well-formed local part before it and a
      well-formed domain after it. */
  predicate IsWellFormedAddress(s: string) {
    Count(s, IsAt) == 1 &&
    DotShape(s[..IndexOf(s, '@').value], LocalClass) &&
    DomainShape(s[IndexOf(s, '@').value + 1..])
  }

  /** The recursive recogniser of `C+(\.C+)*` accepts exactly the dotted shapes. */
  lemma {:induction false} DotRunShape(s: string, k: CharClass)
    ensures DotRun(s, k) <==> DotShape(s, k)
    decreases |s|
  {
    if |s| >= 2 {
      DotRunShape(s[1..], k);
      DotRunShape(s[2..], k);
      if DotShape(s, k) {
        if s[1] == '.' {
          assert s[2..][0] == s[2];
        } else {
          assert InClass(k, s[1]);
        }
      }
      if DotRun(s, k) {
        if InClass(k, s[1]) {
          assert DotShape(s[1..], k);
          forall i | 0 <= i < |s| - 1 && s[i] == '.' ensures s[i + 1] != '.' {
            assert i >= 1 && s[i] == s[1..][i - 1];
          }
        } else {
          assert DotShape(s[2..], k);
          forall i | 0 <= i < |s| - 1 && s[i] == '.' ensures s[i + 1] != '.' {
            if i >= 2 { assert s[i] == s[2..][i - 2]; }
          }
          forall i | 0 <= i < |s| ensures InClass(k, s[i]) || s[i] == '.' {
            if i >= 2 { assert s[i] == s[2..][i - 2]; }
          }
        }
      }
    }
  }

  lemma DotRunAlphabet(s: string, k: CharClass)
    requires DotRun(s, k)
    ensures forall i :: 0 <= i < |s| ==> InClass(k, s[i]) || s[i] == '.'
    ensures forall i :: 0 <= i < |s| ==> s[i] != '@'
  {
    DotRunShape(s, k);
  }

  lemma DomainMatchesToShape(d: string)
    requires DomainMatches(d)
    ensures DomainShape(d)
  {
    var j := LastIndexOf(d, '.').value;
    var head, tld := d[..j], d[j + 1..];
    DotRunShape(head, LabelClass);
    assert tld[0] == d[j + 1];
    forall i | 0 <= i < |d| ensures InClass(LabelClass, d[i]) || d[i] == '.' {
      if i < j { assert d[i] == head[i]; }
      else if i > j { assert d[i] == tld[i - j - 1]; }
    }
    assert d[j - 1] == head[j - 1];
    forall i | 0 <= i < |d| - 1 && d[i] == '.' ensures d[i + 1] != '.' {
      if i < j - 1 { assert d[i] == head[i] && d[i + 1] == head[i + 1]; }
      else if i >= j { assert d[i + 1] == tld[i - j]; }
    }
    assert d[|d| - 1] == tld[|tld| - 1];
  }

  lemma DomainShapeToMatches(d: string)
    requires DomainShape(d)
    ensures DomainMatches(d)
  {
    var j := LastIndexOf(d, '.').value;
    var head := d[..j];
    assert j > 0;
    assert d[j - 1] != '.';
    forall i | 0 <= i < |head| ensures InClass(LabelClass, head[i]) || head[i] == '.' {
      assert head[i] == d[i];
    }
    forall i | 0 <= i < |head| - 1 && head[i] == '.' ensures head[i + 1] != '.' {
      assert head[i] == d[i] && head[i + 1] == d[i + 1];
    }
    assert DotShape(head, LabelClass);
    DotRunShape(head, LabelClass);
  }

  /** The recogniser's domain test accepts exactly the domains of at least
      two labels whose last label is a top-level domain. */
  lemma DomainMatchesShape(d: string)
    ensures DomainMatches(d) <==> DomainShape(d)
  {
    if DomainMatches(d) { DomainMatchesToShape(d); }
    if DomainShape(d) { DomainShapeToMatches(d); }
  }

  /** Slicing a suffix of `s` is slicing `s`. */
  lemma SuffixSlices(s: string, a: nat, b: nat)
    requires a + b < |s|
    ensures s[a..][b] == s[a + b]
    ensures s[a..][..b] == s[a..a + b]
    ensures s[a..][b + 1..] == s[a + b + 1..]
  {
  }

  lemma MatchesInPatternLanguage(s: string)
    requires Matches(s)
    ensures InPatternLanguage(s)
  {
    var i := IndexOf(s, '@').value;
    var d := s[i + 1..];
    var j' := LastIndexOf(d, '.').value;
    SplitOfDomainSplit(s, i, j');
  }

  /** A split of the domain at its dot is a split of the whole address. */
  lemma SplitOfDomainSplit(s: string, i: nat, j: nat)
    requires i < |s| && s[i] == '@' && DotRun(s[..i], LocalClass)
    requires j < |s[i + 1..]| && s[i + 1..][j] == '.'
    requires DotRun(s[i + 1..][..j], LabelClass) && IsTld(s[i + 1..][j + 1..])
    ensures PatternSplit(s, i, i + 1 + j)
  {
    SuffixSlices(s, i + 1, j);
  }

  /** An `@` preceded by a local run is the first `@`. */
  lemma FirstAtAfterLocalRun(s: string, i: nat)
    requires i < |s| && s[i] == '@' && DotRun(s[..i], LocalClass)
    ensures IndexOf(s, '@') == Some(i)
  {
    DotRunAlphabet(s[..i], LocalClass);
    forall m | 0 <= m < i ensures s[m] != '@' { assert s[m] == s[..i][m]; }
  }

  /** A dot followed by a top-level domain is the last dot. */
  lemma LastDotBeforeTld(d: string, j: nat)
    requires j < |d| && d[j] == '.' && IsTld(d[j + 1..])
    ensures LastIndexOf(d, '.') == Some(j)
  {
    var t := d[j + 1..];
    forall m | j < m < |d| ensures d[m] != '.' {
      assert d[m] == t[m - j - 1];
    }
  }

  lemma PatternSplitMatches(s: string, i: nat, j: nat)
    requires i < j < |s| && s[i] == '@' && s[j] == '.'
    requires DotRun(s[..i], LocalClass) && DotRun(s[i + 1..j], LabelClass) && IsTld(s[j + 1..])
    ensures Matches(s)
  {
    FirstAtAfterLocalRun(s, i);
    var d := s[i + 1..];
    var j' := j - i - 1;
    SuffixSlices(s, i + 1, j');
    LastDotBeforeTld(d, j');
  }

  /** The recogniser decides the language the pattern denotes. */
  lemma MatchesIsPatternLanguage(s: string)
    ensures Matches(s) <==> InPatternLanguage(s)
  {
    if Matches(s) {
      MatchesInPatternLanguage(s);
    }
    if InPatternLanguage(s) {
      var i, j :| PatternSplit(s, i, j);
      PatternSplitMatches(s, i, j);
    }
  }

  lemma {:induction false} NoAt(s: string)
    requires forall i :: 0 <= i < |s| ==> s[i] != '@'
    ensures Count(s, IsAt) == 0
  {
  }

  /** What an accepted address looks like, and conversely. */
  lemma MatchesCharacterized(s: string)
    ensures Matches(s) <==> IsWellFormedAddress(s)
  {
    var r := IndexOf(s, '@');
    if r.Some? {
      var i := r.value;
      var local, domain := s[..i], s[i + 1..];
      assert s == local + [s[i]] + domain;
      assert [s[i]][1..] == [];
      CountConcat(local + [s[i]], domain, IsAt);
      CountConcat(local, [s[i]], IsAt);
      DotRunShape(local, LocalClass);
      DomainMatchesShape(domain);
      if Matches(s) || IsWellFormedAddress(s) {
        assert DotShape(domain, LabelClass);
        forall m | 0 <= m < |domain| ensures domain[m] != '@' {
          assert InClass(LabelClass, domain[m]) || domain[m] == '.';
        }
        NoAt(domain);
      }
    } else {
      NoAt(s);
    }
  }

  /** An accepted address uses only the characters the pattern's classes
      name, plus `.` and `@`: no spaces, no upper-case letters, no other
      symbols. */
  lemma AcceptedAlphabet(s: string)
    requires Matches(s)
    ensures forall i :: 0 <= i < |s| ==> IsPatternChar(s[i])
  {
    var i := IndexOf(s, '@').value;
    var local, domain := s[..i], s[i + 1..];
    DotRunAlphabet(local, LocalClass);
    DomainMatchesShape(domain);
    forall m | 0 <= m < |s| ensures IsPatternChar(s[m]) {
      if m < i { assert s[m] == local[m]; }
      else if m > i { assert s[m] == domain[m - i - 1]; }
    }
  }

  /** A single character outside the pattern's alphabet (a space, an
      upper-case letter, another symbol) makes the address fail. */
  lemma RejectsForeignCharacter(s: string, i: nat)
    requires i < |s| && !IsPatternChar(s[i])
    ensures !Matches(s)
  {
    if Matches(s) { AcceptedAlphabet(s); }
  }

  /** The pattern as the .NET regular-expression engine runs it: without
      `RegexOptions.Multiline`, `$` also matches just before a final
      line feed, so such an address is accepted with the line feed in it. */
  predicate MatchesAsWritten(s: string) {
    Matches(s) || (|s| > 0 && s[|s| - 1] == '\n' && Matches(s[..|s| - 1]))
  }

  /** Under the engine's reading, an accepted address uses only the
      pattern's characters, except for one final line feed. */
  lemma AsWrittenAlphabet(s: string)
    requires MatchesAsWritten(s)
    ensures |s| > 0
    ensures forall i :: 0 <= i < |s| - 1 ==> IsPatternChar(s[i])
    ensures IsPatternChar(s[|s| - 1]) || s[|s| - 1] == '\n'
  {
    if Matches(s) {
      AcceptedAlphabet(s);
    } else {
      var t := s[..|s| - 1];
      AcceptedAlphabet(t);
      assert forall i :: 0 <= i < |s| - 1 ==> s[i] == t[i];
    }
  }

  /** "a@b.cc" followed by a line feed passes the pattern as written,
      although the line feed is outside every character class. */
  lemma TrailingLineFeedAccepted()
    ensures MatchesAsWritten("a@b.cc\n")
    ensures !IsPatternChar("a@b.cc\n"[6])
    ensures !Matches("a@b.cc\n")
  {
    var s := "a@b.cc";
    assert IndexOf(s, '@') == Some(1);
    assert s[..1] == "a";
    assert s[2..] == "b.cc";
    assert "b.cc"[..3] == "b.c" && "b.c"[..2] == "b.";
    assert LastIndexOf("b.", '.') == Some(1);
    assert LastIndexOf("b.c", '.') == Some(1);
    assert LastIndexOf("b.cc", '.') == Some(1);
    assert "b.cc"[..1] == "b";
    assert "b.cc"[2..] == "cc";
    assert Matches(s);
    assert "a@b.cc\n"[..6] == s;
    RejectsForeignCharacter("a@b.cc\n", 6);
  }
}
