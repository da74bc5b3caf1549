// Recognising include directives in `tools/build/main.c`.
//
// A directive is a C comment whose body is, after optional white space,
// `@`, a keyword the `strncmp` test accepts, and a quoted path:
// `/* @include "file.h" */`. The quoted path is joined to the directory of
// the file being processed; reading the joined path is the environment's
// business, so the files that can be read are given as a map from path to
// contents and a path outside the map stands for a file that cannot be
// read. Every comment that is not a readable include directive is skipped.
module Directives {
  import opened Platform
  import opened Scanner

  const OPENING_TAG: seq<char> := "/*"
  const CLOSING_TAG: seq<char> := "*/"

  /** `ZR_PATH_SEPARATOR` on the platforms other than Windows. */
  const PATH_SEPARATOR: char := '/'

  /** The size of the `path` array of `ZrIncludeDirectiveData`. */
  const PATH_CAPACITY: nat := 512

  // A recorded directive: `pos` is the offset of its `/*`, `length` runs
  // through its `*/` inclusive, and `contents` is the included file.
  datatype Directive = Directive(pos: nat, length: nat, contents: seq<char>)

  /** The offset just past a directive. */
  function End(d: Directive): nat {
    d.pos + d.length
  }

  /** The path of an included file: the base directory, a separator, the quoted text. */
  function IncludePath(base: seq<char>, name: seq<char>): seq<char> {
    base + [PATH_SEPARATOR] + name
  }

  /** The joined path and its NUL terminator fit in the `path` array. */
  function PathFits(base: seq<char>, name: seq<char>): (r: bool)
    ensures r <==> |IncludePath(base, name)| + 1 <= PATH_CAPACITY
  {
    |base| + |name| + 2 <= PATH_CAPACITY
  }

  /**
   The assertion `baseLength + length < sizeof path` as written. It lets
   through a path whose terminator lands one byte past the array.
   */
  function PathCheckAsWritten(base: seq<char>, name: seq<char>): (r: bool)
    ensures PathFits(base, name) ==> r
    ensures r ==> |IncludePath(base, name)| + 1 <= PATH_CAPACITY + 1
  {
    |base| + |name| < PATH_CAPACITY
  }

  /**
   A 500-character directory and an 11-character quoted name pass the
   assertion, yet the path with its terminator takes 513 bytes of the
   512-byte array.
   */
  lemma PathCheckOffByOne()
    ensures
      var base := seq(500, _ => 'd');
      var name := seq(11, _ => 'n');
      PathCheckAsWritten(base, name) && !PathFits(base, name) &&
      |IncludePath(base, name)| + 1 == PATH_CAPACITY + 1
  {
  }

  /** A non-empty quoted text `name` stands at position `t`: `"name"`, with no quote inside. */
  predicate QuotedAt(s: seq<char>, t: nat, name: seq<char>) {
    && |name| > 0
    && t + |name| + 2 <= |s|
    && s[t] == '"' && s[t + 1 .. t + 1 + |name|] == name && s[t + 1 + |name|] == '"'
    && forall i | 0 <= i < |name| :: name[i] != '"'
  }

  /** Every character in `[i, j)` is white space. */
  predicate AllSpaces(s: seq<char>, i: nat, j: nat)
    requires i <= j <= |s|
  {
    forall k | i <= k < j :: IsSpace(s[k])
  }

  /** Every character in `[i, j)` is a letter or a digit. */
  predicate AllAlnum(s: seq<char>, i: nat, j: nat)
    requires i <= j <= |s|
  {
    forall k | i <= k < j :: IsAlnum(s[k])
  }

  /**
   The comment body `[from, back)` opens like an include directive whose
   quoted path is to start at `t`: white space up to `at`, `@` at `at`,
   white space up to `w`, a word in `[w, e)` that is a non-empty prefix of
   `include` and is not followed by another letter or digit, and white
   space from `e` up to `t`, where `t` is `back` or no white space.
   */
  predicate IncludeHead(s: seq<char>, from: nat, back: nat, at: nat, w: nat, e: nat, t: nat) {
    && from <= at < w < e <= t <= back <= |s|
    && AllSpaces(s, from, at) && s[at] == '@'
    && AllSpaces(s, at + 1, w)
    && AllAlnum(s, w, e) && (e == back || !IsAlnum(s[e]))
    && e - w <= |INCLUDE_KEYWORD| && s[w..e] == INCLUDE_KEYWORD[..e - w]
    && AllSpaces(s, e, t) && (t == back || !IsSpace(s[t]))
  }

  ghost predicate HeadEndsAt(s: seq<char>, from: nat, back: nat, t: nat) {
    exists at: nat, w: nat, e: nat :: IncludeHead(s, from, back, at, w, e, t)
  }

  /**
   The comment opened at `front` and closed at `back` is shaped like an
   include directive quoting the non-empty `name` at `t`, with the closing
   quote before the closing tag.
   */
  ghost predicate QuotesName(s: seq<char>, front: nat, back: nat, t: nat, name: seq<char>) {
    && front + 2 <= back <= |s|
    && HeadEndsAt(s, front + 2, back, t)
    && t + |name| + 2 <= back && QuotedAt(s, t, name)
  }

  /** The comment is an include directive of a readable file with `contents` whose path fits. */
  ghost predicate IncludeComment(s: seq<char>, front: nat, back: nat, base: seq<char>,
                                 files: map<seq<char>, seq<char>>, contents: seq<char>) {
    exists t: nat, name: seq<char> ::
      QuotesName(s, front, back, t, name) && PathFits(base, name) &&
      IncludePath(base, name) in files && contents == files[IncludePath(base, name)]
  }

  /** The comment is an include directive whose path does not fit in the path array. */
  ghost predicate LongPathComment(s: seq<char>, front: nat, back: nat, base: seq<char>) {
    exists t: nat, name: seq<char> :: QuotesName(s, front, back, t, name) && !PathFits(base, name)
  }

  /** What the body of one comment turns out to be. */
  datatype Parsed =
    | NotInclude               // skipped: not a directive, or a file that cannot be read
    | PathTooLong              // the path assertion fails
    | Include(contents: seq<char>)

  /**
   The start of the quoted path in the comment body `[from, back)`: after
   optional white space, `@`, optional white space and a word the keyword
   test accepts, and optional white space again. `None` when the body is
   not shaped like an include directive.
   */
  function PathStart(s: seq<char>, from: nat, back: nat): (r: Option<nat>)
    requires from <= back <= |s|
    ensures r.Some? ==> from < r.value <= back
    ensures r.Some? ==> r.value == back || !IsSpace(s[r.value])
  {
    var q := SkipSpaces(s, from, back);
    if q == back || s[q] != '@' then None
    else
      var w := SkipSpaces(s, q + 1, back);
      var n := WordLength(s, w, back);
      if n == 0 || !StrNEqual(s[w..w + n], INCLUDE_KEYWORD, n) then None
      else
        Some(SkipSpaces(s, w + n, back))
  }

  /** Every body that opens like an include directive is one `PathStart` accepts, at the same position. */
  lemma PathStartComplete(s: seq<char>, from: nat, back: nat, at: nat, w: nat, e: nat, t: nat)
    requires IncludeHead(s, from, back, at, w, e, t)
    ensures PathStart(s, from, back) == Some(t)
  {
    SkipSpacesIs(s, from, back, at);
    SkipSpacesIs(s, at + 1, back, w);
    WordLengthIs(s, w, back, e - w);
    KeywordPrefixAccepted(s, w, e);
    SkipSpacesIs(s, e, back, t);
    PathStartSteps(s, from, back, at, w, e - w);
  }

  /** `PathStart` goes through its stages: white space, `@`, white space, a word, white space. */
  lemma {:induction false} PathStartSteps(s: seq<char>, from: nat, back: nat, at: nat, w: nat, n: nat)
    requires from <= back <= |s|
    requires SkipSpaces(s, from, back) == at && at < back && s[at] == '@'
    requires SkipSpaces(s, at + 1, back) == w && WordLength(s, w, back) == n
    requires 0 < n && StrNEqual(s[w..w + n], INCLUDE_KEYWORD, n)
    ensures PathStart(s, from, back) == Some(SkipSpaces(s, w + n, back))
  {
  }

  /** A run of letters and digits that spells a prefix of `include` passes the keyword test. */
  lemma KeywordPrefixAccepted(s: seq<char>, w: nat, e: nat)
    requires w <= e <= |s| && AllAlnum(s, w, e)
    requires e - w <= |INCLUDE_KEYWORD| && s[w..e] == INCLUDE_KEYWORD[..e - w]
    ensures StrNEqual(s[w..e], INCLUDE_KEYWORD, e - w)
  {
    var word := s[w..e];
    assert forall i | 0 <= i < e - w :: word[i] == s[w + i];
    KeywordAcceptsPrefixes(word);
  }

  /** A word the keyword test accepts spells a prefix of `include`. */
  lemma KeywordAcceptedPrefix(s: seq<char>, w: nat, n: nat)
    requires w + n <= |s| && AllAlnum(s, w, w + n)
    requires StrNEqual(s[w..w + n], INCLUDE_KEYWORD, n)
    ensures n <= |INCLUDE_KEYWORD| && s[w..w + n] == INCLUDE_KEYWORD[..n]
  {
    var word := s[w..w + n];
    assert forall i | 0 <= i < n :: word[i] == s[w + i];
    KeywordAcceptsPrefixes(word);
  }

  /** What `PathStart` accepts opens like an include directive. */
  lemma PathStartSound(s: seq<char>, from: nat, back: nat)
    requires from <= back <= |s| && PathStart(s, from, back).Some?
    ensures HeadEndsAt(s, from, back, PathStart(s, from, back).value)
  {
    var at := SkipSpaces(s, from, back);
    var w := SkipSpaces(s, at + 1, back);
    var n := WordLength(s, w, back);
    PathStartParts(s, from, back, at, w, n);
    HeadOfStages(s, from, back, at, w, n);
  }

  /** The stages of `PathStart`, when they succeed, mark out the head of an include directive. */
  lemma HeadOfStages(s: seq<char>, from: nat, back: nat, at: nat, w: nat, n: nat)
    requires from <= back <= |s|
    requires SkipSpaces(s, from, back) == at && at < back && s[at] == '@'
    requires SkipSpaces(s, at + 1, back) == w && WordLength(s, w, back) == n
    requires 0 < n && StrNEqual(s[w..w + n], INCLUDE_KEYWORD, n)
    ensures HeadEndsAt(s, from, back, SkipSpaces(s, w + n, back))
  {
    KeywordAcceptedPrefix(s, w, n);
    assert IncludeHead(s, from, back, at, w, w + n, SkipSpaces(s, w + n, back));
  }

  /** The stages `PathStart` went through to accept a body. */
  lemma PathStartParts(s: seq<char>, from: nat, back: nat, at: nat, w: nat, n: nat)
    requires from <= back <= |s| && PathStart(s, from, back).Some?
    requires at == SkipSpaces(s, from, back)
    requires at < back ==> w == SkipSpaces(s, at + 1, back) && n == WordLength(s, w, back)
    ensures at < back && s[at] == '@'
    ensures w == SkipSpaces(s, at + 1, back) && n == WordLength(s, w, back)
    ensures 0 < n && StrNEqual(s[w..w + n], INCLUDE_KEYWORD, n)
    ensures PathStart(s, from, back) == Some(SkipSpaces(s, w + n, back))
  {
    assert s[w..w + n] == s[w..w + WordLength(s, w, back)];
  }

  /** `PathStart` finds a position exactly when the body opens like an include directive. */
  lemma PathStartIsHead(s: seq<char>, from: nat, back: nat, t: nat)
    requires from <= back <= |s|
    ensures PathStart(s, from, back) == Some(t) <==> HeadEndsAt(s, from, back, t)
  {
    if HeadEndsAt(s, from, back, t) {
      var at: nat, w: nat, e: nat :| IncludeHead(s, from, back, at, w, e, t);
      PathStartComplete(s, from, back, at, w, e, t);
    }
    if PathStart(s, from, back) == Some(t) {
      PathStartSound(s, from, back);
    }
  }

  /**
   The quoted path at `t`, before `back`, checked against the path array
   and looked up among the readable files.
   */
  function QuotedPath(s: seq<char>, t: nat, back: nat, base: seq<char>,
                      files: map<seq<char>, seq<char>>): (r: Parsed)
    requires t <= back <= |s|
    ensures !r.NotInclude? ==>
      && StringLength(s, t, back).Some?
      && var name := s[t + 1 .. t + 1 + StringLength(s, t, back).value];
      && t + |name| + 2 <= back && QuotedAt(s, t, name)
      && (r.PathTooLong? <==> !PathFits(base, name))
      && (r.Include? ==> IncludePath(base, name) in files && r.contents == files[IncludePath(base, name)])
  {
    match StringLength(s, t, back)
    case None => NotInclude
    case Some(length) =>
      if length == 0 then NotInclude
      else
        var name := s[t + 1 .. t + 1 + length];
        assert QuotedAt(s, t, name);
        if !PathFits(base, name) then PathTooLong
        else if IncludePath(base, name) in files then Include(files[IncludePath(base, name)])
        else NotInclude
  }

  // The body of the comment opened at `front` and closed at `back`, as the
  // loop body of `zrCreateDirectives` and `zrCreateIncludeDirectiveData`
  // read it, with the path assertion corrected. When the closing tag
  // overlaps the opening one (`/*/`), the character after the opening tag
  // is the closing `/`, so the comment is skipped.
  function ParseComment(s: seq<char>, front: nat, back: nat, base: seq<char>,
                        files: map<seq<char>, seq<char>>): (r: Parsed)
    requires front < back && MatchesAt(s, back, CLOSING_TAG)
    ensures !r.NotInclude? ==> front + 2 <= back && PathStart(s, front + 2, back).Some?
    ensures r.Include? ==> r.contents in files.Values
  {
    if back < front + 2 then NotInclude
    else match PathStart(s, front + 2, back)
      case None => NotInclude
      case Some(t) => QuotedPath(s, t, back, base, files)
  }

  /** What `QuotedPath` finds after the head of a directive is what the comment quotes. */
  lemma QuotedPathNamed(s: seq<char>, front: nat, back: nat, t: nat, base: seq<char>,
                        files: map<seq<char>, seq<char>>)
    requires front + 2 <= t <= back <= |s| && HeadEndsAt(s, front + 2, back, t)
    ensures var r := QuotedPath(s, t, back, base, files);
      && (r.Include? ==> IncludeComment(s, front, back, base, files, r.contents))
      && (r.PathTooLong? ==> LongPathComment(s, front, back, base))
  {
    var r := QuotedPath(s, t, back, base, files);
    if !r.NotInclude? {
      var name := s[t + 1 .. t + 1 + StringLength(s, t, back).value];
      assert QuotesName(s, front, back, t, name);
    }
  }

  /**
   A comment is parsed as the include of `contents` exactly when it is an
   include directive of a readable file with those contents, and as a path
   that does not fit exactly when it is an include directive whose path is
   too long. Every other comment is skipped.
   */
  lemma ParseCommentExact(s: seq<char>, front: nat, back: nat, base: seq<char>,
                          files: map<seq<char>, seq<char>>, contents: seq<char>)
    requires front < back && MatchesAt(s, back, CLOSING_TAG)
    ensures ParseComment(s, front, back, base, files) == Include(contents) <==>
      IncludeComment(s, front, back, base, files, contents)
    ensures ParseComment(s, front, back, base, files) == PathTooLong <==> LongPathComment(s, front, back, base)
  {
    ParseCommentSound(s, front, back, base, files);
    if IncludeComment(s, front, back, base, files, contents) {
      IncludeCommentParsed(s, front, back, base, files, contents);
    }
    if LongPathComment(s, front, back, base) {
      LongPathParsed(s, front, back, base, files);
    }
  }

  /** A comment parsed as an include or a path that does not fit is an include directive of that kind. */
  lemma ParseCommentSound(s: seq<char>, front: nat, back: nat, base: seq<char>, files: map<seq<char>, seq<char>>)
    requires front < back && MatchesAt(s, back, CLOSING_TAG)
    ensures var r := ParseComment(s, front, back, base, files);
      && (r.Include? ==> IncludeComment(s, front, back, base, files, r.contents))
      && (r.PathTooLong? ==> LongPathComment(s, front, back, base))
  {
    if front + 2 <= back && PathStart(s, front + 2, back).Some? {
      HeadedCommentSound(s, front, back, PathStart(s, front + 2, back).value, base, files);
    }
  }

  /** `ParseCommentSound` for a comment whose head ends at `t`. */
  lemma HeadedCommentSound(s: seq<char>, front: nat, back: nat, t: nat, base: seq<char>,
                           files: map<seq<char>, seq<char>>)
    requires front + 2 <= back && MatchesAt(s, back, CLOSING_TAG)
    requires PathStart(s, front + 2, back) == Some(t)
    ensures var r := ParseComment(s, front, back, base, files);
      && (r.Include? ==> IncludeComment(s, front, back, base, files, r.contents))
      && (r.PathTooLong? ==> LongPathComment(s, front, back, base))
  {
    ParseCommentAt(s, front, back, t, base, files);
    PathStartSound(s, front + 2, back);
    assert front + 2 <= t <= back;
    QuotedPathNamed(s, front, back, t, base, files);
  }

  /** An include directive of a readable file is parsed as the include of its contents. */
  lemma IncludeCommentParsed(s: seq<char>, front: nat, back: nat, base: seq<char>,
                             files: map<seq<char>, seq<char>>, contents: seq<char>)
    requires front < back && MatchesAt(s, back, CLOSING_TAG)
    requires IncludeComment(s, front, back, base, files, contents)
    ensures ParseComment(s, front, back, base, files) == Include(contents)
  {
    var t: nat, name: seq<char> :|
      QuotesName(s, front, back, t, name) && PathFits(base, name) &&
      IncludePath(base, name) in files && contents == files[IncludePath(base, name)];
    QuotedNameParsed(s, front, back, t, name, base, files);
  }

  /** An include directive whose path does not fit is parsed as such. */
  lemma LongPathParsed(s: seq<char>, front: nat, back: nat, base: seq<char>, files: map<seq<char>, seq<char>>)
    requires front < back && MatchesAt(s, back, CLOSING_TAG)
    requires LongPathComment(s, front, back, base)
    ensures ParseComment(s, front, back, base, files) == PathTooLong
  {
    var t: nat, name: seq<char> :| QuotesName(s, front, back, t, name) && !PathFits(base, name);
    QuotedNameParsed(s, front, back, t, name, base, files);
  }

  /** A comment quoting `name` at `t` is parsed by checking and looking up the path of `name`. */
  lemma QuotedNameParsed(s: seq<char>, front: nat, back: nat, t: nat, name: seq<char>,
                         base: seq<char>, files: map<seq<char>, seq<char>>)
    requires front < back && MatchesAt(s, back, CLOSING_TAG)
    requires QuotesName(s, front, back, t, name)
    ensures ParseComment(s, front, back, base, files) ==
      if !PathFits(base, name) then PathTooLong
      else if IncludePath(base, name) in files then Include(files[IncludePath(base, name)])
      else NotInclude
  {
    PathStartIsHead(s, front + 2, back, t);
    ParseCommentAt(s, front, back, t, base, files);
    QuotedPathOf(s, t, back, name, base, files);
  }

  /** A comment whose head ends at `t` is parsed by reading the quoted path at `t`. */
  lemma ParseCommentAt(s: seq<char>, front: nat, back: nat, t: nat, base: seq<char>,
                       files: map<seq<char>, seq<char>>)
    requires front + 2 <= back <= |s| && MatchesAt(s, back, CLOSING_TAG)
    requires PathStart(s, front + 2, back) == Some(t)
    ensures ParseComment(s, front, back, base, files) == QuotedPath(s, t, back, base, files)
  {
  }

  /** The quoted path at `t` that quotes `name` is `name`'s path, checked and looked up. */
  lemma QuotedPathOf(s: seq<char>, t: nat, back: nat, name: seq<char>, base: seq<char>,
                     files: map<seq<char>, seq<char>>)
    requires t + |name| + 2 <= back <= |s| && QuotedAt(s, t, name)
    ensures QuotedPath(s, t, back, base, files) ==
      if !PathFits(base, name) then PathTooLong
      else if IncludePath(base, name) in files then Include(files[IncludePath(base, name)])
      else NotInclude
  {
    StringLengthIs(s, t, back, |name|);
    assert s[t + 1 .. t + 1 + |name|] == name;
  }

  /** What `zrCreateDirectives` produces. */
  datatype Scan =
    | Unterminated             // an opening tag without a closing tag after it
    | Aborted                  // the path assertion failed
    | Found(directives: seq<Directive>)

  /**
   The directives lie in order without overlapping, each non-empty, at or
   after `from` and within the first `size` characters.
   */
  predicate Placed(ds: seq<Directive>, from: nat, size: nat)
    decreases |ds|
  {
    |ds| == 0 ||
    (from <= ds[0].pos && 0 < ds[0].length && End(ds[0]) <= size && Placed(ds[1..], End(ds[0]), size))
  }

  /** The first closing tag at or after `front` is at `back`. */
  predicate ClosedAt(s: seq<char>, front: nat, back: nat) {
    && front <= back
    && MatchesAt(s, back, CLOSING_TAG)
    && forall i | front <= i < back :: !MatchesAt(s, i, CLOSING_TAG)
  }

  /**
   A recorded directive starts with the opening tag, ends with the first
   closing tag after it, and is an include directive of the file it holds.
   */
  ghost predicate Recognised(s: seq<char>, d: Directive, base: seq<char>, files: map<seq<char>, seq<char>>) {
    && d.length >= 4
    && MatchesAt(s, d.pos, OPENING_TAG)
    && ClosedAt(s, d.pos, End(d) - 2)
    && IncludeComment(s, d.pos, End(d) - 2, base, files, d.contents)
  }

  /** `Recognised` as a test of directives. */
  ghost function RecognisedIn(s: seq<char>, base: seq<char>, files: map<seq<char>, seq<char>>): Directive -> bool {
    d => Recognised(s, d, base, files)
  }

  /** Every directive in `ds` passes `ok`. */
  ghost predicate AllPass(ds: seq<Directive>, ok: Directive -> bool)
    decreases |ds|
  {
    |ds| == 0 || (ok(ds[0]) && AllPass(ds[1..], ok))
  }

  /** Every directive in `ds` is recognised. */
  ghost predicate AllRecognised(s: seq<char>, ds: seq<Directive>, base: seq<char>, files: map<seq<char>, seq<char>>) {
    AllPass(ds, RecognisedIn(s, base, files))
  }

  /** What the body of the comment opened at `front` and closed at `back` is. */
  type Reader = (nat, nat) -> Parsed

  /** The reader of comment bodies of `zrCreateIncludeDirectiveData`, in the text `s`. */
  function CommentReader(s: seq<char>, base: seq<char>, files: map<seq<char>, seq<char>>): (read: Reader)
    ensures forall front: nat, back: nat | front < back && MatchesAt(s, back, CLOSING_TAG) ::
      read(front, back) == ParseComment(s, front, back, base, files)
  {
    (front: nat, back: nat) =>
      if front < back && MatchesAt(s, back, CLOSING_TAG) then ParseComment(s, front, back, base, files)
      else NotInclude
  }

  /**
   The first comment from `start`, when it has a closing tag: it opens at
   the first opening tag from `start` and closes at the first closing tag
   from there (`NextCommentFound`).
   */
  function NextComment(s: seq<char>, start: nat): (r: Option<Comment>)
    requires start <= |s|
    ensures r.Some? ==> start <= r.value.front < r.value.back && r.value.back + 2 <= |s|
  {
    match FindFrom(s, start, OPENING_TAG)
    case None => None
    case Some(front) =>
      match FindFrom(s, front, CLOSING_TAG)
      case None => None
      case Some(back) =>
        TagsApart(s, front, back);
        Some(Comment(front, back))
  }

  /** Where the first comment from `start` opens and closes, and when there is none. */
  lemma NextCommentFound(s: seq<char>, start: nat)
    requires start <= |s|
    ensures var r := NextComment(s, start);
      && (r.Some? ==>
        && FindFrom(s, start, OPENING_TAG) == Some(r.value.front)
        && FindFrom(s, r.value.front, CLOSING_TAG) == Some(r.value.back))
      && (r.None? ==>
        FindFrom(s, start, OPENING_TAG).None? || FindFrom(s, FindFrom(s, start, OPENING_TAG).value, CLOSING_TAG).None?)
  {
  }

  /**
   The loop of `zrCreateDirectives` from position `start`, reading each
   comment body with `read`: find the next opening tag, then the next
   closing tag from there, handle the comment, and resume after the
   closing tag.
   */
  function ScanWith(s: seq<char>, start: nat, read: Reader): (r: Scan)
    requires start <= |s|
    decreases |s| - start, 1
  {
    ScanFrom(s, start, NextComment(s, start), read)
  }

  /** The loop from `start`, once `next` is known to be the first comment from there. */
  function ScanFrom(s: seq<char>, start: nat, next: Option<Comment>, read: Reader): (r: Scan)
    requires start <= |s| && next == NextComment(s, start)
    decreases |s| - start, 0
  {
    match next
    case None => if FindFrom(s, start, OPENING_TAG).None? then Found([]) else Unterminated
    case Some(c) => Continue(read(c.front, c.back), c, ScanWith(s, c.back + 2, read))
  }

  /**
   The loop finds nothing when there is no opening tag from `start`, and
   fails for a missing closing tag only when there is one.
   */
  lemma ScanWithEnds(s: seq<char>, start: nat, read: Reader)
    requires start <= |s|
    ensures FindFrom(s, start, OPENING_TAG).None? ==> ScanWith(s, start, read) == Found([])
    ensures ScanWith(s, start, read).Unterminated? ==> FindFrom(s, start, OPENING_TAG).Some?
  {
    match NextComment(s, start)
    case None =>
    case Some(c) =>
      ScanWithUnfold(s, start, c, read);
  }

  /** Whatever reads the comment bodies, the directives the loop records are placed within the text from `start`. */
  lemma {:induction false} ScanWithPlaced(s: seq<char>, start: nat, read: Reader)
    requires start <= |s|
    ensures ScanWith(s, start, read).Found? ==> Placed(ScanWith(s, start, read).directives, start, |s|)
    decreases |s| - start
  {
    match NextComment(s, start)
    case None =>
    case Some(c) =>
      ScanWithPlaced(s, c.back + 2, read);
      ScanWithUnfold(s, start, c, read);
      ContinuePlaced(read(c.front, c.back), c, ScanWith(s, c.back + 2, read), start, |s|);
  }

  /** Handling a comment after `start` keeps the directives of the rest of the scan placed. */
  lemma ContinuePlaced(k: Parsed, c: Comment, next: Scan, start: nat, size: nat)
    requires start <= c.front < c.back && c.back + 2 <= size
    requires next.Found? ==> Placed(next.directives, c.back + 2, size)
    ensures Continue(k, c, next).Found? ==> Placed(Continue(k, c, next).directives, start, size)
  {
    if next.Found? {
      PlacedFromEarlier(next.directives, start, c.back + 2, size);
      if k.Include? {
        PlacedFirst(start, size, AsDirective(c, k.contents), next.directives);
      }
    }
  }

  /** `zrCreateDirectives` from position `start`. */
  function ScanDirectives(s: seq<char>, start: nat, base: seq<char>, files: map<seq<char>, seq<char>>): (r: Scan)
    requires start <= |s|
    ensures FindFrom(s, start, OPENING_TAG).None? ==> r == Found([])
    ensures r.Unterminated? ==> FindFrom(s, start, OPENING_TAG).Some?
    ensures r.Found? ==> Placed(r.directives, start, |s|)
  {
    ScanWithEnds(s, start, CommentReader(s, base, files));
    ScanWithPlaced(s, start, CommentReader(s, base, files));
    ScanWith(s, start, CommentReader(s, base, files))
  }

  /** `zrCreateDirectives` handles the first comment from `start` and then goes on past its closing tag. */
  lemma ScanDirectivesFirst(s: seq<char>, start: nat, c: Comment, base: seq<char>, files: map<seq<char>, seq<char>>)
    requires start <= |s| && NextComment(s, start) == Some(c)
    ensures MatchesAt(s, c.back, CLOSING_TAG)
    ensures ScanDirectives(s, start, base, files) ==
      Continue(ParseComment(s, c.front, c.back, base, files), c, ScanDirectives(s, c.back + 2, base, files))
  {
    var read := CommentReader(s, base, files);
    ScanWithUnfold(s, start, c, read);
    assert read(c.front, c.back) == ParseComment(s, c.front, c.back, base, files);
  }

  /** The scan handles the first comment and then goes on past its closing tag. */
  lemma ScanWithUnfold(s: seq<char>, start: nat, c: Comment, read: Reader)
    requires start <= |s| && NextComment(s, start) == Some(c)
    ensures ScanWith(s, start, read) == Continue(read(c.front, c.back), c, ScanWith(s, c.back + 2, read))
  {
    assert ScanWith(s, start, read) == ScanFrom(s, start, Some(c), read);
  }

  /**
   The scan of a listing of comments `c`, reading each body with `read`:
   each comment is handled in turn, and after the last one the scan ends,
   failing for a missing closing tag unless `c.closed` holds.
   */
  function ScanComments(c: Comments, read: Reader): Scan
    requires forall i | 0 <= i < |c.list| :: c.list[i].front < c.list[i].back
    decreases |c.list|
  {
    if |c.list| == 0 then (if c.closed then Found([]) else Unterminated)
    else
      var rest := Comments(c.list[1..], c.closed);
      assert forall i | 0 <= i < |rest.list| :: rest.list[i] == c.list[i + 1];
      Continue(read(c.list[0].front, c.list[0].back), c.list[0], ScanComments(rest, read))
  }

  /** Scanning one more comment handles it and then scans the rest. */
  lemma ScanCommentsCons(c: Comment, rest: Comments, read: Reader)
    requires c.front < c.back && forall i | 0 <= i < |rest.list| :: rest.list[i].front < rest.list[i].back
    ensures forall i | 0 <= i < |[c] + rest.list| :: ([c] + rest.list)[i].front < ([c] + rest.list)[i].back
    ensures ScanComments(Comments([c] + rest.list, rest.closed), read) == Continue(read(c.front, c.back), c, ScanComments(rest, read))
  {
    var list := [c] + rest.list;
    assert forall i | 1 <= i < |list| :: list[i] == rest.list[i - 1];
    assert list[0] == c && list[1..] == rest.list;
  }

  /** The loop of `zrCreateDirectives` is the scan of the comments it reaches. */
  lemma {:induction false} ScanIsFold(s: seq<char>, start: nat, read: Reader)
    requires start <= |s|
    ensures ScanWith(s, start, read) == ScanComments(CommentsFrom(s, start), read)
    decreases |s| - start
  {
    match NextComment(s, start)
    case None => FoldEnds(s, start, read);
    case Some(c) =>
      ScanIsFold(s, c.back + 2, read);
      FoldStep(s, start, c, read);
  }

  /** Without a closed comment from `start`, the loop and the scan of the (no) comments agree. */
  lemma FoldEnds(s: seq<char>, start: nat, read: Reader)
    requires start <= |s| && NextComment(s, start).None?
    ensures CommentsFrom(s, start) == Comments([], FindFrom(s, start, OPENING_TAG).None?)
    ensures ScanWith(s, start, read) == ScanComments(CommentsFrom(s, start), read)
  {
  }

  /** The loop and the scan of the comments agree from `start` when they agree past the first comment. */
  lemma FoldStep(s: seq<char>, start: nat, c: Comment, read: Reader)
    requires start <= |s| && NextComment(s, start) == Some(c)
    requires ScanWith(s, c.back + 2, read) == ScanComments(CommentsFrom(s, c.back + 2), read)
    ensures ScanWith(s, start, read) == ScanComments(CommentsFrom(s, start), read)
  {
    var rest := CommentsFrom(s, c.back + 2);
    ScanWithUnfold(s, start, c, read);
    CommentsFromUnfold(s, start, c);
    ScanCommentsCons(c, rest, read);
  }

  /**
   The scan of the comments `c` goes through them in order: it aborts
   exactly when `read` finds a path that does not fit in one of them; it
   fails for a missing closing tag exactly when the listing ends on one and
   no path before it is too long; otherwise it records exactly the
   comments that `read` makes includes of.
   */
  lemma {:induction false} ScanCommentsMatches(c: Comments, read: Reader)
    requires forall i | 0 <= i < |c.list| :: c.list[i].front < c.list[i].back
    ensures ScanMatches(ScanComments(c, read), c, Kinds(c.list, read))
    decreases |c.list|
  {
    if |c.list| == 0 {
      assert Kinds(c.list, read) == [];
    } else {
      var first := c.list[0];
      var rest := Comments(c.list[1..], c.closed);
      assert forall i | 0 <= i < |rest.list| :: rest.list[i] == c.list[i + 1];
      ScanCommentsMatches(rest, read);
      assert [first] + rest.list == c.list;
      KindsCons(first, rest.list, read);
      ScanCommentsCons(first, rest, read);
      ContinueMatches(read(first.front, first.back), first, ScanComments(rest, read), rest, Kinds(rest.list, read));
    }
  }

  /** Directives placed from `later` on are placed from any earlier position. */
  lemma PlacedFromEarlier(ds: seq<Directive>, from: nat, later: nat, size: nat)
    requires from <= later && Placed(ds, later, size)
    ensures Placed(ds, from, size)
  {
  }

  /** A directive placed before the others keeps them placed. */
  lemma PlacedFirst(start: nat, size: nat, d: Directive, ds: seq<Directive>)
    requires start <= d.pos && 0 < d.length && End(d) <= size && Placed(ds, End(d), size)
    ensures Placed([d] + ds, start, size)
  {
    assert ([d] + ds)[0] == d && ([d] + ds)[1..] == ds;
  }

  /**
   The directives `zrCreateDirectives` finds are in order, do not overlap,
   lie within the text, and are each a recognised include directive; a
   scan that fails for a missing closing tag has met an opening tag with
   no closing tag anywhere after it.
   */
  lemma ScanSound(s: seq<char>, start: nat, base: seq<char>, files: map<seq<char>, seq<char>>)
    requires start <= |s|
    ensures
      var r := ScanDirectives(s, start, base, files);
      r.Found? ==> Placed(r.directives, start, |s|) && AllRecognised(s, r.directives, base, files)
    ensures ScanDirectives(s, start, base, files).Unterminated? ==>
      exists i | start <= i :: MatchesAt(s, i, OPENING_TAG) && NoneFrom(s, i, CLOSING_TAG)
  {
    var c := CommentsFrom(s, start);
    var read := CommentReader(s, base, files);
    var ks := Kinds(c.list, read);
    ScanIsFold(s, start, read);
    ScanCommentsMatches(c, read);
    CommentsSegmented(s, start);
    forall i | 0 <= i < |c.list| && ks[i].Include?
      ensures RecognisedIn(s, base, files)(AsDirective(c.list[i], ks[i].contents))
    {
      assert Delimited(s, c.list[i]);
      KindRecognised(s, start, c, base, files, i);
    }
    RecordedPass(c.list, ks, RecognisedIn(s, base, files));
    RecordedPlaced(s, start, c, ks);
    if !c.closed {
      SegmentedOpenEnd(s, start, c);
    }
  }

  /** The `i`-th comment of a listing from `start`, when it includes a file, is a recognised directive. */
  lemma KindRecognised(s: seq<char>, start: nat, c: Comments, base: seq<char>, files: map<seq<char>, seq<char>>, i: nat)
    requires Segmented(s, start, c) && i < |c.list| && c.list[i].front < c.list[i].back
    requires Kinds(c.list, CommentReader(s, base, files))[i].Include?
    ensures Recognised(s, AsDirective(c.list[i], Kinds(c.list, CommentReader(s, base, files))[i].contents), base, files)
  {
    var front, back := c.list[i].front, c.list[i].back;
    var read := CommentReader(s, base, files);
    KindsAt(c.list, read, i);
    SegmentedAt(s, start, c, i);
    var k := read(front, back);
    assert k == ParseComment(s, front, back, base, files);
    assert c.list[i] == Comment(front, back);
    CommentRecognised(s, front, back, base, files, k.contents);
  }

  /** A comment parsed as an include directive is recorded as a recognised directive. */
  lemma CommentRecognised(s: seq<char>, front: nat, back: nat, base: seq<char>,
                          files: map<seq<char>, seq<char>>, contents: seq<char>)
    requires MatchesAt(s, front, OPENING_TAG) && ClosedAt(s, front, back) && front < back
    requires ParseComment(s, front, back, base, files) == Include(contents)
    ensures Recognised(s, AsDirective(Comment(front, back), contents), base, files)
  {
    ParseCommentExact(s, front, back, base, files, contents);
    var d := AsDirective(Comment(front, back), contents);
    assert End(d) - 2 == back;
  }

  // A closing tag found from an opening tag starts after it, possibly
  // sharing its star, as in the three characters `/*/`.
  lemma TagsApart(s: seq<char>, front: nat, back: nat)
    requires MatchesAt(s, front, OPENING_TAG) && front <= back && MatchesAt(s, back, CLOSING_TAG)
    ensures front < back
  {
    assert s[front] == s[front..front + 2][0] == '/';
    assert s[back] == s[back..back + 2][0] == '*';
  }

  // ---------------------------------------------------------------------
  // The comments the scan reaches
  // ---------------------------------------------------------------------

  /** A comment: its opening tag at `front` and the first closing tag after that at `back`. */
  datatype Comment = Comment(front: nat, back: nat)

  /**
   The comments from some position on, in order. `closed` is false when
   an opening tag after the last of them has no closing tag after it.
   */
  datatype Comments = Comments(list: seq<Comment>, closed: bool)

  /** A comment whose body `ParseComment` can read. */
  predicate Delimited(s: seq<char>, c: Comment) {
    c.front < c.back && MatchesAt(s, c.back, CLOSING_TAG)
  }

  /** What `read` makes of the body of each comment of `cs`. */
  function Kinds(cs: seq<Comment>, read: Reader): (ks: seq<Parsed>)
    ensures |ks| == |cs|
    decreases |cs|
  {
    if |cs| == 0 then [] else [read(cs[0].front, cs[0].back)] + Kinds(cs[1..], read)
  }

  /** What `read` makes of a comment followed by others. */
  lemma KindsCons(c: Comment, cs: seq<Comment>, read: Reader)
    ensures Kinds([c] + cs, read) == [read(c.front, c.back)] + Kinds(cs, read)
  {
    assert ([c] + cs)[0] == c && ([c] + cs)[1..] == cs;
  }

  /** The `i`-th kind is what `read` makes of the `i`-th comment. */
  lemma {:induction false} KindsAt(cs: seq<Comment>, read: Reader, i: nat)
    requires i < |cs|
    ensures Kinds(cs, read)[i] == read(cs[i].front, cs[i].back)
    decreases i
  {
    if i > 0 {
      KindsAt(cs[1..], read, i - 1);
      assert cs[1..][i - 1] == cs[i];
    }
  }

  /** The directive recorded for a comment that includes `contents`. */
  function AsDirective(c: Comment, contents: seq<char>): Directive
    requires c.front < c.back
  {
    Directive(c.front, c.back + 2 - c.front, contents)
  }

  /** The first opening tag at or after `from` is at `front`. */
  predicate OpenedAt(s: seq<char>, from: nat, front: nat) {
    && from <= front
    && MatchesAt(s, front, OPENING_TAG)
    && forall i | from <= i < front :: !MatchesAt(s, i, OPENING_TAG)
  }

  /** `pat` does not occur at or after `from`. */
  ghost predicate NoneFrom(s: seq<char>, from: nat, pat: seq<char>) {
    forall i | from <= i :: !MatchesAt(s, i, pat)
  }

  /**
   `c` lists the comments from `start` on, one after another: the first
   opens at the first opening tag at or after `start` and closes at the
   first closing tag after that, and the rest list the comments from just
   past its closing tag. After the last one there is no opening tag when
   `c.closed` holds, and otherwise there is an opening tag with no closing
   tag after it.
   */
  ghost predicate Segmented(s: seq<char>, start: nat, c: Comments)
    decreases |c.list|
  {
    if |c.list| == 0 then
      if c.closed then NoneFrom(s, start, OPENING_TAG)
      else exists front: nat :: OpenedAt(s, start, front) && NoneFrom(s, front, CLOSING_TAG)
    else
      var first := c.list[0];
      && OpenedAt(s, start, first.front) && ClosedAt(s, first.front, first.back)
      && Segmented(s, first.back + 2, Comments(c.list[1..], c.closed))
  }

  /** The comments from `start` on, found the way the loop of `zrCreateDirectives` finds them. */
  function CommentsFrom(s: seq<char>, start: nat): (r: Comments)
    requires start <= |s|
    ensures forall i | 0 <= i < |r.list| :: Delimited(s, r.list[i])
    decreases |s| - start, 1
  {
    CommentsOf(s, start, NextComment(s, start))
  }

  /** The comments from `start` on, once `next` is known to be the first of them. */
  function CommentsOf(s: seq<char>, start: nat, next: Option<Comment>): (r: Comments)
    requires start <= |s| && next == NextComment(s, start)
    ensures forall i | 0 <= i < |r.list| :: Delimited(s, r.list[i])
    decreases |s| - start, 0
  {
    match next
    case None => Comments([], FindFrom(s, start, OPENING_TAG).None?)
    case Some(c) =>
      var rest := CommentsFrom(s, c.back + 2);
      var list := [c] + rest.list;
      assert forall i | 1 <= i < |list| :: list[i] == rest.list[i - 1];
      Comments(list, rest.closed)
  }

  /** `CommentsFrom` lists exactly the comments from `start` on. */
  lemma {:induction false} CommentsSegmented(s: seq<char>, start: nat)
    requires start <= |s|
    ensures Segmented(s, start, CommentsFrom(s, start))
    decreases |s| - start
  {
    match NextComment(s, start)
    case None => SegmentedNone(s, start);
    case Some(c) =>
      CommentsSegmented(s, c.back + 2);
      SegmentedStep(s, start, c);
  }

  /** Without a closed comment from `start`, the (no) comments from `start` are listed. */
  lemma SegmentedNone(s: seq<char>, start: nat)
    requires start <= |s| && NextComment(s, start).None?
    ensures Segmented(s, start, CommentsFrom(s, start))
  {
    var opening := FindFrom(s, start, OPENING_TAG);
    if opening.None? {
      assert CommentsFrom(s, start) == Comments([], true);
    } else {
      SegmentedUnclosed(s, start, opening.value);
    }
  }

  /** The comments from `start` are the first one and then those from past its closing tag. */
  lemma {:induction false} CommentsFromUnfold(s: seq<char>, start: nat, c: Comment)
    requires start <= |s| && NextComment(s, start) == Some(c)
    ensures CommentsFrom(s, start) == Comments([c] + CommentsFrom(s, c.back + 2).list, CommentsFrom(s, c.back + 2).closed)
  {
    assert CommentsFrom(s, start) == CommentsOf(s, start, Some(c));
  }

  /** The comments from `start` are the first one followed by those from past its closing tag. */
  lemma SegmentedStep(s: seq<char>, start: nat, c: Comment)
    requires start <= |s| && NextComment(s, start) == Some(c)
    requires Segmented(s, c.back + 2, CommentsFrom(s, c.back + 2))
    ensures Segmented(s, start, CommentsFrom(s, start))
  {
    CommentsFromUnfold(s, start, c);
    SegmentedFirst(s, start, c, CommentsFrom(s, c.back + 2));
  }

  /** A listing that ends without its closing tag ends on an opening tag with no closing tag after it. */
  lemma {:induction false} SegmentedOpenEnd(s: seq<char>, start: nat, c: Comments)
    requires Segmented(s, start, c) && !c.closed
    ensures exists i | start <= i :: MatchesAt(s, i, OPENING_TAG) && NoneFrom(s, i, CLOSING_TAG)
    decreases |c.list|
  {
    if |c.list| == 0 {
      var front: nat :| OpenedAt(s, start, front) && NoneFrom(s, front, CLOSING_TAG);
      assert start <= front;
    } else {
      var rest := Comments(c.list[1..], c.closed);
      SegmentedOpenEnd(s, c.list[0].back + 2, rest);
      var i :| c.list[0].back + 2 <= i && MatchesAt(s, i, OPENING_TAG) && NoneFrom(s, i, CLOSING_TAG);
      assert start <= c.list[0].front <= i;
    }
  }

  /** An opening tag with no closing tag after it ends the comments from `start`. */
  lemma SegmentedUnclosed(s: seq<char>, start: nat, front: nat)
    requires start <= |s| && FindFrom(s, start, OPENING_TAG) == Some(front)
    requires FindFrom(s, front, CLOSING_TAG).None?
    ensures CommentsFrom(s, start) == Comments([], false)
    ensures Segmented(s, start, Comments([], false))
  {
    assert OpenedAt(s, start, front) && NoneFrom(s, front, CLOSING_TAG);
  }

  /** A first comment followed by the comments after it lists the comments from `start`. */
  lemma SegmentedFirst(s: seq<char>, start: nat, c: Comment, rest: Comments)
    requires start <= |s| && FindFrom(s, start, OPENING_TAG) == Some(c.front)
    requires FindFrom(s, c.front, CLOSING_TAG) == Some(c.back)
    requires Segmented(s, c.back + 2, rest)
    ensures Segmented(s, start, Comments([c] + rest.list, rest.closed))
  {
    assert OpenedAt(s, start, c.front);
    assert ClosedAt(s, c.front, c.back);
    assert ([c] + rest.list)[1..] == rest.list;
  }

  /**
   The directives recorded for the comments `cs` whose bodies are `ks`:
   one for each comment that includes a readable file.
   */
  function Recorded(cs: seq<Comment>, ks: seq<Parsed>): seq<Directive>
    requires |ks| == |cs| && forall i | 0 <= i < |cs| :: cs[i].front < cs[i].back
    decreases |cs|
  {
    if |cs| == 0 then []
    else
      var rest := Recorded(cs[1..], ks[1..]);
      match ks[0]
      case Include(contents) => [AsDirective(cs[0], contents)] + rest
      case _ => rest
  }

  /**
   A comment of `cs` that includes a readable file has its directive
   recorded, and every recorded directive comes from such a comment.
   */
  lemma {:induction false} RecordedExactly(cs: seq<Comment>, ks: seq<Parsed>)
    requires |ks| == |cs| && forall i | 0 <= i < |cs| :: cs[i].front < cs[i].back
    ensures forall i | 0 <= i < |cs| && ks[i].Include? :: AsDirective(cs[i], ks[i].contents) in Recorded(cs, ks)
    ensures forall d | d in Recorded(cs, ks) ::
      exists i | 0 <= i < |cs| :: ks[i] == Include(d.contents) && d == AsDirective(cs[i], d.contents)
    decreases |cs|
  {
    if |cs| > 0 {
      RecordedExactly(cs[1..], ks[1..]);
      var rest := Recorded(cs[1..], ks[1..]);
      var ds := Recorded(cs, ks);
      forall i | 0 <= i < |cs| && ks[i].Include?
        ensures AsDirective(cs[i], ks[i].contents) in ds
      {
        if i > 0 {
          assert cs[i] == cs[1..][i - 1] && ks[i] == ks[1..][i - 1];
        }
      }
      forall d | d in ds
        ensures exists i | 0 <= i < |cs| :: ks[i] == Include(d.contents) && d == AsDirective(cs[i], d.contents)
      {
        if d in rest {
          var j :| 0 <= j < |cs| - 1 && ks[1..][j] == Include(d.contents) && d == AsDirective(cs[1..][j], d.contents);
          assert cs[j + 1] == cs[1..][j] && ks[j + 1] == ks[1..][j];
        } else {
          assert ks[0] == Include(d.contents) && d == AsDirective(cs[0], d.contents);
        }
      }
    }
  }

  /** The `i`-th comment of a listing opens with an opening tag and closes at the first closing tag after it. */
  lemma {:induction false} SegmentedAt(s: seq<char>, start: nat, c: Comments, i: nat)
    requires Segmented(s, start, c) && i < |c.list|
    ensures MatchesAt(s, c.list[i].front, OPENING_TAG) && ClosedAt(s, c.list[i].front, c.list[i].back)
    decreases i
  {
    if i > 0 {
      var rest := Comments(c.list[1..], c.closed);
      SegmentedAt(s, c.list[0].back + 2, rest, i - 1);
      assert rest.list[i - 1] == c.list[i];
    }
  }

  /** The directives recorded for a listing of comments are in order, without overlapping, within the text. */
  lemma {:induction false} RecordedPlaced(s: seq<char>, start: nat, c: Comments, ks: seq<Parsed>)
    requires |ks| == |c.list| && forall i | 0 <= i < |c.list| :: c.list[i].front < c.list[i].back
    requires Segmented(s, start, c)
    ensures Placed(Recorded(c.list, ks), start, |s|)
    decreases |c.list|
  {
    if |c.list| > 0 {
      var first := c.list[0];
      var rest := Comments(c.list[1..], c.closed);
      RecordedPlaced(s, first.back + 2, rest, ks[1..]);
      var ds := Recorded(rest.list, ks[1..]);
      if ks[0].Include? {
        PlacedFirst(start, |s|, AsDirective(first, ks[0].contents), ds);
      } else {
        PlacedFromEarlier(ds, start, first.back + 2, |s|);
      }
    }
  }

  /** When each comment read as an include gives a directive passing `ok`, all recorded directives pass. */
  lemma {:induction false} RecordedPass(cs: seq<Comment>, ks: seq<Parsed>, ok: Directive -> bool)
    requires |ks| == |cs| && forall i | 0 <= i < |cs| :: cs[i].front < cs[i].back
    requires forall i | 0 <= i < |cs| && ks[i].Include? :: ok(AsDirective(cs[i], ks[i].contents))
    ensures AllPass(Recorded(cs, ks), ok)
    decreases |cs|
  {
    if |cs| > 0 {
      forall i | 0 <= i < |cs| - 1 && ks[1..][i].Include?
        ensures ok(AsDirective(cs[1..][i], ks[1..][i].contents))
      {
        assert cs[1..][i] == cs[i + 1] && ks[1..][i] == ks[i + 1];
      }
      RecordedPass(cs[1..], ks[1..], ok);
      var ds := Recorded(cs[1..], ks[1..]);
      if ks[0].Include? {
        var d := AsDirective(cs[0], ks[0].contents);
        assert ([d] + ds)[0] == d && ([d] + ds)[1..] == ds;
      }
    }
  }

  /** Some comment quotes a path that does not fit. */
  predicate AnyLongPath(ks: seq<Parsed>) {
    exists i | 0 <= i < |ks| :: ks[i].PathTooLong?
  }

  /**
   `zrCreateDirectives` goes through the comments from `start` in order:
   it aborts exactly when one of them quotes a path that does not fit; it
   fails for a missing closing tag exactly when there is one and no path
   before it is too long; otherwise it records exactly the comments that
   include a readable file.
   */
  lemma ScanFollowsComments(s: seq<char>, start: nat, base: seq<char>, files: map<seq<char>, seq<char>>)
    requires start <= |s|
    ensures
      var c := CommentsFrom(s, start);
      var ks := Kinds(c.list, CommentReader(s, base, files));
      && ScanMatches(ScanDirectives(s, start, base, files), c, ks)
      && forall i | 0 <= i < |ks| :: ks[i] == ParseComment(s, c.list[i].front, c.list[i].back, base, files)
  {
    var c := CommentsFrom(s, start);
    var read := CommentReader(s, base, files);
    ScanIsFold(s, start, read);
    ScanCommentsMatches(c, read);
    forall i | 0 <= i < |c.list|
      ensures Kinds(c.list, read)[i] == ParseComment(s, c.list[i].front, c.list[i].back, base, files)
    {
      KindsAt(c.list, read, i);
      assert Delimited(s, c.list[i]);
    }
  }

  /**
   The scan result `r` agrees with the comments `c` whose bodies are `ks`:
   the scan aborts exactly when one of them quotes a path that does not
   fit; it fails for a missing closing tag exactly when there is one and
   no path before it is too long; otherwise it records exactly the
   comments that include a readable file.
   */
  predicate ScanMatches(r: Scan, c: Comments, ks: seq<Parsed>)
    requires |ks| == |c.list| && forall i | 0 <= i < |c.list| :: c.list[i].front < c.list[i].back
  {
    && (r.Aborted? <==> AnyLongPath(ks))
    && (r.Unterminated? <==> !c.closed && !AnyLongPath(ks))
    && (r.Found? ==> c.closed && r.directives == Recorded(c.list, ks))
  }

  /** What the scan does with a comment `c` whose body is `k`, given the scan `next` of the text after it. */
  function Continue(k: Parsed, c: Comment, next: Scan): Scan
    requires c.front < c.back
  {
    match k
    case PathTooLong => Aborted
    case NotInclude => next
    case Include(contents) =>
      match next
      case Found(ds) => Found([AsDirective(c, contents)] + ds)
      case other => other
  }

  /** Handling one more comment keeps the scan in agreement with the comments. */
  lemma ContinueMatches(k: Parsed, c: Comment, next: Scan, rest: Comments, ks: seq<Parsed>)
    requires c.front < c.back
    requires |ks| == |rest.list| && forall i | 0 <= i < |rest.list| :: rest.list[i].front < rest.list[i].back
    requires ScanMatches(next, rest, ks)
    ensures forall i | 0 <= i < |[c] + rest.list| :: ([c] + rest.list)[i].front < ([c] + rest.list)[i].back
    ensures ScanMatches(Continue(k, c, next), Comments([c] + rest.list, rest.closed), [k] + ks)
  {
    var list := [c] + rest.list;
    assert forall i | 1 <= i < |list| :: list[i] == rest.list[i - 1];
    assert list[0] == c && list[1..] == rest.list && ([k] + ks)[0] == k && ([k] + ks)[1..] == ks;
    AnyLongPathCons(k, ks);
  }

  /** A path that does not fit occurs in `[k] + ks` exactly when `k` is one or one occurs in `ks`. */
  lemma AnyLongPathCons(k: Parsed, ks: seq<Parsed>)
    ensures AnyLongPath([k] + ks) <==> k.PathTooLong? || AnyLongPath(ks)
  {
    var list := [k] + ks;
    if AnyLongPath(ks) {
      var j :| 0 <= j < |ks| && ks[j].PathTooLong?;
      assert list[j + 1] == ks[j];
    }
    if k.PathTooLong? {
      assert list[0] == k;
    }
    if AnyLongPath(list) && !k.PathTooLong? {
      var j :| 0 <= j < |list| && list[j].PathTooLong?;
      assert list[0] == k;
      assert list[j] == ks[j - 1];
      assert ks[j - 1].PathTooLong?;
    }
  }

  /**
   `zrGetDirectory`: the part of a path before its last separator. The
   source does pointer arithmetic on a null pointer when there is no
   separator; the model answers `None` there.
   */
  function GetDirectory(path: seq<char>): (r: Option<seq<char>>)
    ensures r.None? <==> forall i | 0 <= i < |path| :: path[i] != PATH_SEPARATOR
    ensures r.Some? ==>
      |r.value| < |path| && r.value == path[..|r.value|] && path[|r.value|] == PATH_SEPARATOR &&
      forall i | |r.value| < i < |path| :: path[i] != PATH_SEPARATOR
    decreases |path|
  {
    if |path| == 0 then None
    else if path[|path| - 1] == PATH_SEPARATOR then Some(path[..|path| - 1])
    else GetDirectory(path[..|path| - 1])
  }

  /** The directory of an include path is the base it was built from. */
  lemma DirectoryOfIncludePath(base: seq<char>, name: seq<char>)
    requires forall i | 0 <= i < |name| :: name[i] != PATH_SEPARATOR
    ensures GetDirectory(IncludePath(base, name)) == Some(base)
  {
    var p := IncludePath(base, name);
    var r := GetDirectory(p);
    assert p[|base|] == PATH_SEPARATOR;
    assert r.Some?;
    assert |r.value| == |base|;
    assert p[..|base|] == base;
  }
}
