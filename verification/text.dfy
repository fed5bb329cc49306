/**
 * The two string clean-ups of the dashboard's startup code: `remove_special_characters`,
 * applied to every course name, and the `^Module\s+\d+:\s+` substitution that shortens
 * module names for the checklist labels.
 */
module Text {
  import opened Wrappers

  /** The class `[a-zA-Z0-9]`. */
  predicate IsAsciiAlnum(c: char) {
    ('a' <= c <= 'z') || ('A' <= c <= 'Z') || ('0' <= c <= '9')
  }

  /** Every character of `s` is in `[a-zA-Z0-9]`. */
  predicate AllAlnum(s: string) {
    forall i :: 0 <= i < |s| ==> IsAsciiAlnum(s[i])
  }

  /** `a` can be obtained from `b` by deleting characters. */
  predicate IsSubseq(a: string, b: string) {
    if |a| == 0 then true
    else if |b| == 0 then false
    else if a[0] == b[0] then IsSubseq(a[1..], b[1..])
    else IsSubseq(a, b[1..])
  }

  /**
   * Course-name cleaning: every character of `s` that is not an ASCII letter or digit is
   * deleted; the result keeps every letter and digit, once each, in its original order.
   */
  function RemoveSpecialCharacters(s: string): (r: string)
    ensures AllAlnum(r)
    ensures IsSubseq(r, s)
    ensures |r| <= |s|
  {
    if |s| == 0 then []
    else
      var rest := RemoveSpecialCharacters(s[1..]);
      if IsAsciiAlnum(s[0]) then
        assert ([s[0]] + rest)[1..] == rest;
        [s[0]] + rest
      else
        assert |rest| == 0 || rest[0] != s[0];
        rest
  }

  /** Cleaning keeps every letter and digit of `s` as many times as it occurs. */
  lemma {:induction false} CleanKeepsCounts(s: string)
    ensures forall c :: IsAsciiAlnum(c) ==> multiset(RemoveSpecialCharacters(s))[c] == multiset(s)[c]
  {
    if |s| > 0 {
      CleanKeepsCounts(s[1..]);
      assert s == [s[0]] + s[1..];
      assert multiset(s) == multiset{s[0]} + multiset(s[1..]);
    }
  }

  /** A string made only of letters and digits passes through unchanged. */
  lemma {:induction false} CleanKeepsAlnum(s: string)
    requires AllAlnum(s)
    ensures RemoveSpecialCharacters(s) == s
  {
    if |s| > 0 {
      CleanKeepsAlnum(s[1..]);
    }
  }

  /** Cleaning leaves a string unchanged exactly when it is already made of letters and digits. */
  lemma CleanUnchangedIff(s: string)
    ensures RemoveSpecialCharacters(s) == s <==> AllAlnum(s)
  {
    if AllAlnum(s) {
      CleanKeepsAlnum(s);
    }
  }

  /** Cleaning twice is cleaning once. */
  lemma CleanIdempotent(s: string)
    ensures RemoveSpecialCharacters(RemoveSpecialCharacters(s)) == RemoveSpecialCharacters(s)
  {
    CleanKeepsAlnum(RemoveSpecialCharacters(s));
  }

  /** The substitution works character by character, so it distributes over concatenation. */
  lemma {:induction false} CleanConcat(a: string, b: string)
    ensures RemoveSpecialCharacters(a + b) == RemoveSpecialCharacters(a) + RemoveSpecialCharacters(b)
  {
    if |a| == 0 {
      assert a + b == b;
    } else {
      var ab := a + b;
      assert ab[0] == a[0] && ab[1..] == a[1..] + b;
      CleanConcat(a[1..], b);
      var head: string := if IsAsciiAlnum(a[0]) then [a[0]] else [];
      assert RemoveSpecialCharacters(ab) == head + RemoveSpecialCharacters(ab[1..]);
      assert RemoveSpecialCharacters(a) == head + RemoveSpecialCharacters(a[1..]);
    }
  }

  /** The ASCII whitespace `\s` matches: space, `\t`, `\n`, `\v`, `\f`, `\r`. */
  predicate IsSpace(c: char) {
    c == ' ' || ('\t' <= c <= '\r')
  }

  /** The class `\d`, on ASCII digits. */
  predicate IsDigit(c: char) {
    '0' <= c <= '9'
  }

  /** `\s+`: one or more whitespace characters. */
  predicate Spaces(s: string) {
    |s| > 0 && forall i :: 0 <= i < |s| ==> IsSpace(s[i])
  }

  /** `\d+`: one or more digits. */
  predicate Digits(s: string) {
    |s| > 0 && forall i :: 0 <= i < |s| ==> IsDigit(s[i])
  }

  /** `p` matches `Module\s+\d+:\s+` with the digits occupying `p[i..j]` and the colon at `p[j]`. */
  predicate IsModulePrefixAt(p: string, i: nat, j: nat) {
    && 6 < i < j < |p| - 1
    && p[..6] == "Module"
    && (forall t :: 6 <= t < i ==> IsSpace(p[t]))
    && (forall t :: i <= t < j ==> IsDigit(p[t]))
    && p[j] == ':'
    && (forall t :: j < t < |p| ==> IsSpace(p[t]))
  }

  /** `p`, as a whole, matches the pattern `Module\s+\d+:\s+`. */
  ghost predicate IsModulePrefix(p: string) {
    exists i: nat, j: nat :: IsModulePrefixAt(p, i, j)
  }

  /** The end of the greedy run of `ok` characters of `s` starting at `from`. */
  function Skip(s: string, ok: char -> bool, from: nat): (n: nat)
    requires from <= |s|
    ensures from <= n <= |s|
    ensures forall t :: from <= t < n ==> ok(s[t])
    ensures n == |s| || !ok(s[n])
    decreases |s| - from
  {
    if from == |s| || !ok(s[from]) then from else Skip(s, ok, from + 1)
  }

  /** A run of `ok` characters from `from` ended by a character failing `ok` is the greedy run. */
  lemma {:induction false} SkipEndsAt(s: string, ok: char -> bool, from: nat, n: nat)
    requires from <= n <= |s|
    requires forall t :: from <= t < n ==> ok(s[t])
    requires n == |s| || !ok(s[n])
    ensures Skip(s, ok, from) == n
    decreases n - from
  {
    if from < n {
      SkipEndsAt(s, ok, from + 1, n);
    }
  }

  /** Length of the match of `^Module\s+\d+:\s+` at the start of `s`, matching greedily, if any. */
  function MatchModulePrefix(s: string): (r: Option<nat>)
    ensures r.Some? ==> 6 < r.value <= |s|
  {
    if |s| < 6 || s[..6] != "Module" then None
    else
      var i := Skip(s, IsSpace, 6);
      var j := Skip(s, IsDigit, i);
      if i == 6 || j == i || j == |s| || s[j] != ':' then None
      else
        var n := Skip(s, IsSpace, j + 1);
        if n == j + 1 then None else Some(n)
  }

  /**
   * The matcher is sound and complete for prefixes: what it finds matches the pattern and is
   * not followed by more whitespace; when it finds nothing, no prefix of `s` matches.
   */
  lemma MatchModulePrefixCorrect(s: string)
    ensures MatchModulePrefix(s).Some? ==> IsModulePrefix(s[..MatchModulePrefix(s).value])
    ensures MatchModulePrefix(s).Some? ==>
              MatchModulePrefix(s).value == |s| || !IsSpace(s[MatchModulePrefix(s).value])
    ensures MatchModulePrefix(s).None? ==> forall k :: 0 <= k <= |s| ==> !IsModulePrefix(s[..k])
  {
    if |s| < 6 || s[..6] != "Module" {
      NoModuleWord(s);
    } else {
      var i := Skip(s, IsSpace, 6);
      var j := Skip(s, IsDigit, i);
      if i == 6 || j == i || j == |s| || s[j] != ':' || Skip(s, IsSpace, j + 1) == j + 1 {
        NoMatchAfter(s, i, j);
      } else {
        var n := Skip(s, IsSpace, j + 1);
        assert IsModulePrefixAt(s[..n], i, j) by {
          assert s[..n][..6] == s[..6];
        }
      }
    }
  }

  /** A string that does not start with `Module` has no prefix matching the pattern. */
  lemma NoModuleWord(s: string)
    requires |s| < 6 || s[..6] != "Module"
    ensures forall k :: 0 <= k <= |s| ==> !IsModulePrefix(s[..k])
  {
    if |s| >= 6 {
      forall k, i: nat, j: nat | 6 <= k <= |s|
        ensures !IsModulePrefixAt(s[..k], i, j)
      {
        assert s[..k][..6] == s[..6];
      }
    }
  }

  /** When the greedy runs after `Module` do not line up with the pattern, no prefix of `s` matches. */
  lemma NoMatchAfter(s: string, i: nat, j: nat)
    requires |s| >= 6 && s[..6] == "Module"
    requires i == Skip(s, IsSpace, 6)
    requires j == Skip(s, IsDigit, i)
    requires i == 6 || j == i || j == |s| || s[j] != ':' || Skip(s, IsSpace, j + 1) == j + 1
    ensures forall k :: 0 <= k <= |s| ==> !IsModulePrefix(s[..k])
  {
    forall k, i': nat, j': nat | 0 <= k <= |s|
      ensures !IsModulePrefixAt(s[..k], i', j')
    {
      if IsModulePrefixAt(s[..k], i', j') {
        RunsOfMatch(s, k, i', j');
      }
    }
  }

  /**
   * Any match of a prefix of `s` puts its whitespace, digits and colon exactly where the
   * greedy runs put them, so those runs line up with the pattern.
   */
  lemma RunsOfMatch(s: string, k: nat, i: nat, j: nat)
    requires k <= |s| && IsModulePrefixAt(s[..k], i, j)
    ensures |s| >= 6 && s[..6] == "Module"
    ensures Skip(s, IsSpace, 6) == i && Skip(s, IsDigit, i) == j
    ensures s[j] == ':' && Skip(s, IsSpace, j + 1) > j + 1
  {
    var p := s[..k];
    assert s[..6] == p[..6];
    assert p[i] == s[i];
    SkipEndsAt(s, IsSpace, 6, i);
    assert p[j] == s[j];
    SkipEndsAt(s, IsDigit, i, j);
    assert p[j + 1] == s[j + 1];
  }

  /**
   * Module-name shortening: a leading `Module <n>: ` label (pattern `^Module\s+\d+:\s+`),
   * with all the whitespace after its colon, is removed once; otherwise `s` is returned unchanged.
   */
  function StripModulePrefix(s: string): (r: string)
    ensures |r| <= |s| && r == s[|s| - |r|..]
    ensures r != s ==> IsModulePrefix(s[..|s| - |r|]) && (|r| == 0 || !IsSpace(r[0]))
    ensures r == s ==> forall k :: 0 <= k <= |s| ==> !IsModulePrefix(s[..k])
  {
    MatchModulePrefixCorrect(s);
    match MatchModulePrefix(s)
    case None => s
    case Some(n) => s[n..]
  }

  /** A match of `s[..k]` that is not followed by more whitespace is exactly what gets removed. */
  lemma MatchIsGreedy(s: string, k: nat)
    requires k <= |s| && IsModulePrefix(s[..k])
    requires k == |s| || !IsSpace(s[k])
    ensures StripModulePrefix(s) == s[k..]
  {
    var i: nat, j: nat :| IsModulePrefixAt(s[..k], i, j);
    RunsOfMatch(s, k, i, j);
    TrailingRun(s, k, i, j);
    assert MatchModulePrefix(s) == Some(k);
  }

  /** The whitespace closing a match of `s[..k]` runs up to `k` when `s[k]` is not whitespace. */
  lemma TrailingRun(s: string, k: nat, i: nat, j: nat)
    requires k <= |s| && IsModulePrefixAt(s[..k], i, j)
    requires k == |s| || !IsSpace(s[k])
    ensures Skip(s, IsSpace, j + 1) == k
  {
    var p := s[..k];
    assert forall t :: j < t < k ==> p[t] == s[t];
    SkipEndsAt(s, IsSpace, j + 1, k);
  }

  /**
   * A name `Module<w1><d>:<w2><rest>` loses exactly its label: whatever `rest` holds, even
   * another `Module <n>: ` label, is kept, since the pattern is anchored at the start.
   */
  lemma StripLabel(w1: string, d: string, w2: string, rest: string)
    requires Spaces(w1) && Digits(d) && Spaces(w2)
    requires |rest| == 0 || !IsSpace(rest[0])
    ensures StripModulePrefix("Module" + w1 + d + ":" + w2 + rest) == rest
  {
    var tag := "Module" + w1 + d + ":" + w2;
    var s := tag + rest;
    assert s == "Module" + w1 + d + ":" + w2 + rest;
    var i := 6 + |w1|;
    var j := i + |d|;
    assert s[..|tag|] == tag;
    assert IsModulePrefixAt(tag, i, j) by {
      assert tag[..6] == "Module";
      assert forall t :: 6 <= t < i ==> tag[t] == w1[t - 6];
      assert forall t :: i <= t < j ==> tag[t] == d[t - i];
      assert forall t :: j < t < |tag| ==> tag[t] == w2[t - j - 1];
    }
    assert s[|tag|..] == rest;
    MatchIsGreedy(s, |tag|);
  }
}
