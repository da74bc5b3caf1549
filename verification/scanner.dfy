/**
 The character-level helpers of the include-directive preprocessor in
 `tools/build/main.c`: skipping white space, measuring a word and a quoted
 string, finding a tag (`strstr`), and comparing a word with a keyword
 (`strncmp`). Positions are indices into the source text; `end` plays the
 role of the `pEnd` pointer.
 */
module Scanner {
  import opened Platform

  /** `isspace` in the "C" locale: space, and tab through carriage return (9 to 13). */
  predicate IsSpace(c: char) {
    c == ' ' || (9 <= c as int <= 13)
  }

  /** `isalnum` in the "C" locale: an ASCII letter or digit. */
  predicate IsAlnum(c: char) {
    ('a' <= c <= 'z') || ('A' <= c <= 'Z') || ('0' <= c <= '9')
  }

  /** `zrSkipSpaces`: the first position in `[p, end]` that is `end` or holds no white space. */
  function SkipSpaces(s: seq<char>, p: nat, end: nat): (q: nat)
    requires p <= end <= |s|
    ensures p <= q <= end
    ensures forall i | p <= i < q :: IsSpace(s[i])
    ensures q < end ==> !IsSpace(s[q])
    decreases end - p
  {
    if p < end && IsSpace(s[p]) then SkipSpaces(s, p + 1, end) else p
  }

  /** `zrGetWordLength`: the length of the longest run of letters and digits starting at `p`, within `end`. */
  function WordLength(s: seq<char>, p: nat, end: nat): (n: nat)
    requires p <= end <= |s|
    ensures p + n <= end
    ensures forall i | p <= i < p + n :: IsAlnum(s[i])
    ensures p + n < end ==> !IsAlnum(s[p + n])
    decreases end - p
  {
    if p < end && IsAlnum(s[p]) then 1 + WordLength(s, p + 1, end) else 0
  }

  /** The first position in `[p, end]` that is `end` or holds `c`. */
  function ScanTo(s: seq<char>, p: nat, end: nat, c: char): (q: nat)
    requires p <= end <= |s|
    ensures p <= q <= end
    ensures forall i | p <= i < q :: s[i] != c
    ensures q < end ==> s[q] == c
    decreases end - p
  {
    if p < end && s[p] != c then ScanTo(s, p + 1, end, c) else p
  }

  /**
   `zrGetStringLength`: for text starting with `"` and holding a closing
   `"` before `end`, the number of characters between the two; otherwise
   `None`, which stands for `(size_t)-1`.
   */
  function StringLength(s: seq<char>, p: nat, end: nat): (r: Option<nat>)
    requires p <= end <= |s|
    ensures r.Some? <==> p < end && s[p] == '"' && exists j | p < j < end :: s[j] == '"'
    ensures r.Some? ==>
      p + 1 + r.value < end && s[p + 1 + r.value] == '"' &&
      forall i | p < i < p + 1 + r.value :: s[i] != '"'
  {
    if p == end || s[p] != '"' then None
    else
      var q := ScanTo(s, p + 1, end, '"');
      if q == end then None else Some(q - p - 1)
  }

  /** A run of white space from `p` that stops at `end` or at a non-space is the one `SkipSpaces` finds. */
  lemma SkipSpacesIs(s: seq<char>, p: nat, end: nat, q: nat)
    requires p <= q <= end <= |s|
    requires forall i | p <= i < q :: IsSpace(s[i])
    requires q == end || !IsSpace(s[q])
    ensures SkipSpaces(s, p, end) == q
  {
  }

  /** A run of letters and digits from `p` that stops at `end` or at another character is the word `WordLength` measures. */
  lemma WordLengthIs(s: seq<char>, p: nat, end: nat, n: nat)
    requires p + n <= end <= |s|
    requires forall i | p <= i < p + n :: IsAlnum(s[i])
    requires p + n == end || !IsAlnum(s[p + n])
    ensures WordLength(s, p, end) == n
  {
  }

  /** A quote at `p` whose next quote is at `p + 1 + n`, before `end`, encloses a string of length `n`. */
  lemma StringLengthIs(s: seq<char>, p: nat, end: nat, n: nat)
    requires p + 1 + n < end <= |s|
    requires s[p] == '"' && s[p + 1 + n] == '"'
    requires forall i | p < i < p + 1 + n :: s[i] != '"'
    ensures StringLength(s, p, end) == Some(n)
  {
  }

  /** The first occurrence of `pat` at or after `from` is the one `FindFrom` finds. */
  lemma FindFromIs(s: seq<char>, from: nat, pat: seq<char>, at: nat)
    requires from <= at && MatchesAt(s, at, pat)
    requires forall i | from <= i < at :: !MatchesAt(s, i, pat)
    ensures FindFrom(s, from, pat) == Some(at)
  {
  }

  /** `pat` occurs in `s` at position `i`. */
  predicate MatchesAt(s: seq<char>, i: nat, pat: seq<char>) {
    i + |pat| <= |s| && s[i..i + |pat|] == pat
  }

  /** `strstr(&s[from], pat)`: the first position at or after `from` where `pat` occurs. */
  function FindFrom(s: seq<char>, from: nat, pat: seq<char>): (r: Option<nat>)
    requires from <= |s|
    ensures r.Some? ==>
      from <= r.value && MatchesAt(s, r.value, pat) &&
      forall i | from <= i < r.value :: !MatchesAt(s, i, pat)
    ensures r.None? ==> forall i | from <= i :: !MatchesAt(s, i, pat)
    decreases |s| - from
  {
    if from + |pat| > |s| then None
    else if MatchesAt(s, from, pat) then Some(from)
    else FindFrom(s, from + 1, pat)
  }

  /** A text without the NUL character, so that it is read whole as a C string. */
  predicate NoNul(x: seq<char>) {
    forall i | 0 <= i < |x| :: x[i] != '\0'
  }

  /**
   `strncmp(a, b, n) == 0` for C strings whose characters are the
   sequences up to their first NUL or their end: the first `n` characters
   agree, where a string ends at its terminator.
   */
  function StrNEqual(a: seq<char>, b: seq<char>, n: nat): bool
    decreases n
  {
    if n == 0 then true
    else
      var ca := if |a| == 0 then '\0' else a[0];
      var cb := if |b| == 0 then '\0' else b[0];
      if ca != cb then false
      else if ca == '\0' then true
      else StrNEqual(a[1..], b[1..], n - 1)
  }

  /**
   Comparing a NUL-free word with a NUL-free keyword over the word's
   length succeeds exactly when the word is a prefix of the keyword.
   */
  lemma {:induction false} StrNEqualPrefix(a: seq<char>, b: seq<char>)
    requires NoNul(a) && NoNul(b)
    ensures StrNEqual(a, b, |a|) <==> |a| <= |b| && a == b[..|a|]
  {
    if |a| > 0 {
      if |b| > 0 && a[0] == b[0] {
        StrNEqualPrefix(a[1..], b[1..]);
        if |a| <= |b| && a[1..] == b[1..][..|a| - 1] {
          assert a == [a[0]] + a[1..];
          assert b[..|a|] == [b[0]] + b[1..][..|a| - 1];
        }
        if |a| <= |b| && a == b[..|a|] {
          assert a[1..] == b[..|a|][1..];
        }
      }
    }
  }

  /** The keyword of an include directive. */
  const INCLUDE_KEYWORD: seq<char> := "include"

  /** The keyword's characters, one by one. */
  lemma KeywordCharacters()
    ensures INCLUDE_KEYWORD == ['i', 'n', 'c', 'l', 'u', 'd', 'e']
  {
  }

  /**
   The keyword test accepts a word (of letters and digits) exactly when it
   is a prefix of `include`: `@inc` is accepted as well as `@include`,
   while `@includes` is not.
   */
  lemma KeywordAcceptsPrefixes(word: seq<char>)
    requires forall i | 0 <= i < |word| :: IsAlnum(word[i])
    ensures StrNEqual(word, INCLUDE_KEYWORD, |word|) <==>
      |word| <= |INCLUDE_KEYWORD| && word == INCLUDE_KEYWORD[..|word|]
  {
    assert NoNul(INCLUDE_KEYWORD);
    StrNEqualPrefix(word, INCLUDE_KEYWORD);
  }

  /** Instances of the keyword test. */
  lemma KeywordExamples()
    ensures StrNEqual("inc", INCLUDE_KEYWORD, 3)
    ensures StrNEqual("include", INCLUDE_KEYWORD, 7)
    ensures !StrNEqual("includes", INCLUDE_KEYWORD, 8)
    ensures !StrNEqual("import", INCLUDE_KEYWORD, 6)
  {
    KeywordAcceptsPrefixes("inc");
    KeywordAcceptsPrefixes("include");
    KeywordAcceptsPrefixes("includes");
    KeywordAcceptsPrefixes("import");
    assert "import"[1] != INCLUDE_KEYWORD[1];
  }
}
