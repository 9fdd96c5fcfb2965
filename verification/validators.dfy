/** The three field validators of the submission controller. Each is an
    anchored regular expression in the source. For each we give

    - the character-level predicate the controller uses (compiled), and
    - a ghost predicate for the language of the regular expression as
      written, one existential witness per piece of the pattern,

    and prove that the two agree on every string. */
module Validators {
  import opened CharClasses

  // ---------------------------------------------------------------------
  // Email:  /^[^\s@]+@[^\s@]+\.[^\s@]+$/
  // ---------------------------------------------------------------------

  /** The class `[^\s@]`. Note that it contains `.`. */
  predicate IsEmailChar(c: char) {
    !IsWhitespace(c) && c != '@'
  }

  /** A non-empty run of `[^\s@]`. */
  predicate IsEmailRun(w: string) {
    |w| > 0 && forall i :: 0 <= i < |w| ==> IsEmailChar(w[i])
  }

  /** `s` splits as `local @ host . tld`, the three pieces of the pattern. */
  ghost predicate EmailParts(s: string, local: string, host: string, tld: string) {
    IsEmailRun(local) && IsEmailRun(host) && IsEmailRun(tld)
    && s == local + "@" + host + "." + tld
  }

  /** The language of the email regular expression. */
  ghost predicate EmailPattern(s: string) {
    exists local, host, tld :: EmailParts(s, local, host, tld)
  }

  /** `at` is the position of the one and only `@` in `s`. */
  predicate SoleAt(s: string, at: int) {
    0 <= at < |s| && s[at] == '@'
    && forall j :: 0 <= j < |s| && j != at ==> s[j] != '@'
  }

  /** `d` has a `.` that is neither its first nor its last character. */
  predicate HasInnerDot(d: string) {
    exists k :: 0 < k < |d| - 1 && d[k] == '.'
  }

  /** `isValidEmail`: no whitespace, exactly one `@`, something before it,
      and a dot strictly inside the part after it. */
  predicate IsValidEmail(s: string) {
    NoWhitespace(s)
    && exists at :: 0 < at < |s| && SoleAt(s, at) && HasInnerDot(s[at + 1..])
  }

  /** A non-empty slice of an accepted address that avoids its `@` is a
      run of `[^\s@]`. */
  lemma EmailRunOfSlice(s: string, at: int, lo: int, hi: int)
    requires NoWhitespace(s) && SoleAt(s, at)
    requires 0 <= lo < hi <= |s| && (at < lo || hi <= at)
    ensures IsEmailRun(s[lo..hi])
  {
    forall i | 0 <= i < hi - lo ensures IsEmailChar(s[lo..hi][i]) {
      assert s[lo..hi][i] == s[lo + i];
    }
  }

  /** A string is its two marked characters and the three pieces around
      them. */
  lemma SplitAround(s: string, i: int, j: int)
    requires 0 <= i < j < |s|
    ensures s == s[..i] + [s[i]] + s[i + 1..j] + [s[j]] + s[j + 1..]
  {
    assert s[..j] == s[..i] + [s[i]] + s[i + 1..j];
    assert s == s[..j] + [s[j]] + s[j + 1..];
  }

  /** Every string the email validator accepts is in the language of its
      regular expression. */
  lemma EmailValidIsPattern(s: string)
    requires IsValidEmail(s)
    ensures EmailPattern(s)
  {
    var at :| 0 < at < |s| && SoleAt(s, at) && HasInnerDot(s[at + 1..]);
    var k :| 0 < k < |s[at + 1..]| - 1 && s[at + 1..][k] == '.';
    var dot := at + 1 + k;
    assert s[dot] == '.';
    EmailRunOfSlice(s, at, 0, at);
    EmailRunOfSlice(s, at, at + 1, dot);
    EmailRunOfSlice(s, at, dot + 1, |s|);
    SplitAround(s, at, dot);
    assert s[..at] == s[0..at];
    assert EmailParts(s, s[..at], s[at + 1..dot], s[dot + 1..]);
  }

  /** Every string in the language of the email regular expression is
      accepted by the validator. */
  lemma EmailPatternIsValid(s: string)
    requires EmailPattern(s)
    ensures IsValidEmail(s)
  {
    var local, host, tld :| EmailParts(s, local, host, tld);
    var at := |local|;
    var d := host + "." + tld;
    assert s == local + "@" + d;
    assert s[at + 1..] == d;
    forall i | 0 <= i < |s| ensures !IsWhitespace(s[i]) && (i != at ==> s[i] != '@') {
      if i < at {
        assert s[i] == local[i];
      } else if i == at {
      } else if i < at + 1 + |host| {
        assert s[i] == d[i - at - 1] == host[i - at - 1];
      } else if i == at + 1 + |host| {
        assert s[i] == d[|host|] == '.';
      } else {
        assert s[i] == d[i - at - 1] == tld[i - at - 2 - |host|];
      }
    }
    assert d[|host|] == '.';
    assert SoleAt(s, at);
  }

  /** The email validator accepts exactly the language of its regular
      expression. */
  lemma EmailMatchesPattern(s: string)
    ensures IsValidEmail(s) <==> EmailPattern(s)
  {
    if IsValidEmail(s) { EmailValidIsPattern(s); }
    if EmailPattern(s) { EmailPatternIsValid(s); }
  }

  lemma EmailAcceptsPlain()
    ensures IsValidEmail("alice@example.com")
  {
    var s := "alice@example.com";
    assert SoleAt(s, 5) && s[6..][7] == '.';
  }

  lemma EmailAcceptsDottedLocal()
    ensures IsValidEmail("a.b@c.d.e")
  {
    var s := "a.b@c.d.e";
    assert SoleAt(s, 3) && s[4..][1] == '.';
  }

  /** The `@` found by the validator is the one at `at`, whenever `s` has an
      `@` there. */
  lemma SoleAtIsUnique(s: string, at: int, at': int)
    requires 0 <= at < |s| && s[at] == '@' && SoleAt(s, at')
    ensures at' == at
  {
  }

  lemma EmailRejects()
    ensures !IsValidEmail("alice@example")
    ensures !IsValidEmail("@example.com")
    ensures !IsValidEmail("alice@.com")
    ensures !IsValidEmail("alice@example.")
    ensures !IsValidEmail("al ice@example.com")
    ensures !IsValidEmail("a@b@c.com")
  {
    var bad1 := "alice@example";
    forall at | 0 < at < |bad1| && SoleAt(bad1, at) ensures !HasInnerDot(bad1[at + 1..]) {
      SoleAtIsUnique(bad1, 5, at);
      assert bad1[6..] == "example";
    }
    var bad2 := "@example.com";
    forall at | 0 < at < |bad2| ensures !SoleAt(bad2, at) {
      assert bad2[0] == '@';
    }
    var bad3 := "alice@.com";
    forall at | 0 < at < |bad3| && SoleAt(bad3, at) ensures !HasInnerDot(bad3[at + 1..]) {
      SoleAtIsUnique(bad3, 5, at);
      assert bad3[6..] == ".com";
    }
    var bad4 := "alice@example.";
    forall at | 0 < at < |bad4| && SoleAt(bad4, at) ensures !HasInnerDot(bad4[at + 1..]) {
      SoleAtIsUnique(bad4, 5, at);
      assert bad4[6..] == "example.";
    }
    assert IsWhitespace("al ice@example.com"[2]);
    var bad6 := "a@b@c.com";
    forall at | 0 <= at < |bad6| ensures !SoleAt(bad6, at) {
      assert bad6[1] == '@' && bad6[3] == '@';
    }
  }

  // ---------------------------------------------------------------------
  // Phone:  /^\d{10}$/
  // ---------------------------------------------------------------------

  /** `isValidPhoneNumber`: exactly ten ASCII digits. Without the `m` flag
      `$` matches only at the very end, so a trailing newline is refused. */
  predicate IsValidPhoneNumber(s: string) {
    |s| == 10 && AllDigits(s)
  }

  /** The concatenation of a sequence of strings. */
  function Concat(pieces: seq<string>): string {
    if |pieces| == 0 then "" else pieces[0] + Concat(pieces[1..])
  }

  /** `s` is ten one-character pieces, each a `\d`. */
  ghost predicate PhoneParts(s: string, pieces: seq<string>) {
    && |pieces| == 10
    && (forall k :: 0 <= k < 10 ==> |pieces[k]| == 1 && IsDigit(pieces[k][0]))
    && s == Concat(pieces)
  }

  /** The language of `^\d{10}$`. */
  ghost predicate PhonePattern(s: string) {
    exists pieces :: PhoneParts(s, pieces)
  }

  /** Concatenating one-character strings lists their characters. */
  lemma {:induction false} ConcatSingletons(pieces: seq<string>)
    requires forall k :: 0 <= k < |pieces| ==> |pieces[k]| == 1
    ensures |Concat(pieces)| == |pieces|
    ensures forall k :: 0 <= k < |pieces| ==> Concat(pieces)[k] == pieces[k][0]
    decreases |pieces|
  {
    if |pieces| > 0 {
      ConcatSingletons(pieces[1..]);
      var c := Concat(pieces);
      forall k | 0 < k < |pieces| ensures c[k] == pieces[k][0] {
        assert c[k] == Concat(pieces[1..])[k - 1];
        assert pieces[1..][k - 1] == pieces[k];
      }
    }
  }

  /** The phone check accepts exactly the language of its regular
      expression. */
  lemma PhoneMatchesPattern(s: string)
    ensures IsValidPhoneNumber(s) <==> PhonePattern(s)
  {
    if IsValidPhoneNumber(s) {
      var pieces := seq(10, k requires 0 <= k < 10 => [s[k]]);
      ConcatSingletons(pieces);
      assert Concat(pieces) == s;
      assert PhoneParts(s, pieces);
    }
    if PhonePattern(s) {
      var pieces :| PhoneParts(s, pieces);
      ConcatSingletons(pieces);
      assert forall i :: 0 <= i < |s| ==> s[i] == pieces[i][0];
    }
  }

  lemma PhoneExamples()
    ensures IsValidPhoneNumber("1234567890")
    ensures !IsValidPhoneNumber("12345")
    ensures !IsValidPhoneNumber("12345678901")
    ensures !IsValidPhoneNumber("123456789\n")
    ensures !IsValidPhoneNumber("1234567890\n")
    ensures !IsValidPhoneNumber("12345 6789")
  {
    assert !IsDigit("123456789\n"[9]);
    assert !IsDigit("12345 6789"[5]);
  }

  // ---------------------------------------------------------------------
  // GitHub link:  /^https:\/\/github\.com\/[a-zA-Z0-9-]+(\/[a-zA-Z0-9-]+)*\/?$/
  // ---------------------------------------------------------------------

  /** The fixed, case-sensitive prefix of a GitHub link. */
  const GithubPrefix: string := "https://github.com/"

  /** A non-empty run of `[a-zA-Z0-9-]`: one path segment. */
  predicate IsSegment(w: string) {
    |w| > 0 && forall i :: 0 <= i < |w| ==> IsNameChar(w[i])
  }

  /** Segments joined by single slashes. */
  function JoinPath(segs: seq<string>): string
    requires |segs| > 0
  {
    if |segs| == 1 then segs[0] else segs[0] + "/" + JoinPath(segs[1..])
  }

  /** `s` is the prefix, the segments `seg(/seg)*`, then `/` iff `trailing`. */
  ghost predicate GithubParts(s: string, segs: seq<string>, trailing: bool) {
    |segs| > 0
    && (forall i :: 0 <= i < |segs| ==> IsSegment(segs[i]))
    && s == GithubPrefix + JoinPath(segs) + (if trailing then "/" else "")
  }

  /** The language of the GitHub-link regular expression. */
  ghost predicate GithubPattern(s: string) {
    exists segs, trailing :: GithubParts(s, segs, trailing)
  }

  /** A path of name characters and slashes that neither starts nor ends
      with a slash and never has two slashes in a row. */
  predicate IsPath(r: string) {
    && |r| > 0
    && r[0] != '/'
    && r[|r| - 1] != '/'
    && (forall i :: 0 <= i < |r| ==> IsNameChar(r[i]) || r[i] == '/')
    && (forall i :: 0 <= i < |r| - 1 ==> !(r[i] == '/' && r[i + 1] == '/'))
  }

  /** `r` without one final slash, if it has one. */
  function DropTrailingSlash(r: string): string {
    if |r| > 0 && r[|r| - 1] == '/' then r[..|r| - 1] else r
  }

  /** `isValidGithubLink`: the prefix, then a path, then at most one slash. */
  predicate IsValidGithubLink(s: string) {
    |GithubPrefix| <= |s|
    && s[..|GithubPrefix|] == GithubPrefix
    && IsPath(DropTrailingSlash(s[|GithubPrefix|..]))
  }

  /** Position of the first `/` in `r`, or `|r|` when there is none. */
  function FirstSlash(r: string): (k: nat)
    ensures k <= |r|
    ensures forall j :: 0 <= j < k ==> r[j] != '/'
    ensures k < |r| ==> r[k] == '/'
  {
    if |r| == 0 || r[0] == '/' then 0 else 1 + FirstSlash(r[1..])
  }

  /** Cuts a path at its slashes: the inverse of `JoinPath`. */
  function SplitPath(r: string): (segs: seq<string>)
    requires IsPath(r)
    ensures |segs| > 0
    ensures forall i :: 0 <= i < |segs| ==> IsSegment(segs[i])
    ensures JoinPath(segs) == r
    decreases |r|
  {
    var k := FirstSlash(r);
    if k == |r| then
      [r]
    else
      var rest := r[k + 1..];
      assert IsPath(rest) by {
        assert r[k + 1] != '/';
        assert forall i :: 0 <= i < |rest| ==> rest[i] == r[k + 1 + i];
      }
      var tail := SplitPath(rest);
      assert r == r[..k] + "/" + rest;
      [r[..k]] + tail
  }

  /** Joining valid segments always gives a path. */
  lemma {:induction false} JoinPathIsPath(segs: seq<string>)
    requires |segs| > 0
    requires forall i :: 0 <= i < |segs| ==> IsSegment(segs[i])
    ensures IsPath(JoinPath(segs))
    decreases |segs|
  {
    if |segs| > 1 {
      var rest := JoinPath(segs[1..]);
      JoinPathIsPath(segs[1..]);
      var r := segs[0] + "/" + rest;
      forall i | 0 <= i < |r| ensures IsNameChar(r[i]) || r[i] == '/' {
        if i > |segs[0]| { assert r[i] == rest[i - |segs[0]| - 1]; }
      }
      forall i | 0 <= i < |r| - 1 ensures !(r[i] == '/' && r[i + 1] == '/') {
        if i > |segs[0]| { assert r[i] == rest[i - |segs[0]| - 1]; }
      }
    }
  }

  /** The GitHub-link validator accepts exactly the language of its regular
      expression. */
  lemma GithubMatchesPattern(s: string)
    ensures IsValidGithubLink(s) <==> GithubPattern(s)
  {
    var n := |GithubPrefix|;
    if IsValidGithubLink(s) {
      var rest := s[n..];
      var r := DropTrailingSlash(rest);
      var segs := SplitPath(r);
      var trailing := |rest| > 0 && rest[|rest| - 1] == '/';
      assert rest == r + (if trailing then "/" else "");
      assert s == s[..n] + rest;
      assert GithubParts(s, segs, trailing);
    }
    if GithubPattern(s) {
      var segs, trailing :| GithubParts(s, segs, trailing);
      var r := JoinPath(segs);
      JoinPathIsPath(segs);
      assert s[..n] == GithubPrefix;
      assert s[n..] == r + (if trailing then "/" else "");
      if trailing {
        assert DropTrailingSlash(s[n..]) == r;
      } else {
        assert s[n..] == r;
      }
    }
  }

  lemma GithubAcceptsOwner()
    ensures IsValidGithubLink("https://github.com/alice")
  {
    var s := "https://github.com/alice";
    assert s[..|GithubPrefix|] == GithubPrefix;
    assert s[|GithubPrefix|..] == "alice";
  }

  lemma GithubAcceptsRepo()
    ensures IsValidGithubLink("https://github.com/alice/repo")
  {
    var s := "https://github.com/alice/repo";
    assert s[..|GithubPrefix|] == GithubPrefix;
    assert s[|GithubPrefix|..] == "alice/repo";
  }

  lemma GithubAcceptsTrailingSlash()
    ensures IsValidGithubLink("https://github.com/alice/")
  {
    var s := "https://github.com/alice/";
    assert s[..|GithubPrefix|] == GithubPrefix;
    assert s[|GithubPrefix|..] == "alice/";
    assert DropTrailingSlash("alice/") == "alice";
  }

  lemma GithubRejectsOtherPrefixes()
    ensures !IsValidGithubLink("http://github.com/alice")
    ensures !IsValidGithubLink("https://gitlab.com/alice")
    ensures !IsValidGithubLink("https://GitHub.com/alice")
  {
    assert "http://github.com/alice"[4] != GithubPrefix[4];
    assert "https://gitlab.com/alice"[11] != GithubPrefix[11];
    assert "https://GitHub.com/alice"[8] != GithubPrefix[8];
  }

  lemma GithubRejectsBadPaths()
    ensures !IsValidGithubLink("https://github.com/")
    ensures !IsValidGithubLink("https://github.com/alice//repo")
    ensures !IsValidGithubLink("https://github.com/al_ice")
  {
    var n := |GithubPrefix|;
    assert "https://github.com/"[n..] == "";
    assert "https://github.com/alice//repo"[n..] == "alice//repo";
    assert "alice//repo"[5] == '/' && "alice//repo"[6] == '/';
    assert "https://github.com/al_ice"[n..] == "al_ice";
    assert !IsNameChar("al_ice"[2]);
  }
}
