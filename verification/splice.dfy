// Splicing included files into the text, as `zrProcessIncludeDirectives`
// in `tools/build/main.c` does: every recorded directive, from the opening
// `/*` through the closing `*/`, is replaced by the contents of the file
// it names, and the text between directives is copied unchanged.
module Splice {
  import opened Platform
  import opened Memory
  import opened Scanner
  import opened Directives

  /** The text from `offset` on with each directive of `ds` replaced by its contents. */
  function SpliceFrom(s: seq<char>, ds: seq<Directive>, offset: nat): seq<char>
    requires offset <= |s| && Placed(ds, offset, |s|)
    decreases |ds|
  {
    if |ds| == 0 then s[offset..]
    else s[offset..ds[0].pos] + ds[0].contents + SpliceFrom(s, ds[1..], End(ds[0]))
  }

  /**
   The whole text with every directive replaced: as long as the text plus
   every directive's change in length, and the text itself when there is
   no directive.
   */
  function Splice(s: seq<char>, ds: seq<Directive>): (r: seq<char>)
    requires Placed(ds, 0, |s|)
    ensures |r| == |s| + Delta(ds)
    ensures |ds| == 0 ==> r == s
  {
    SpliceLength(s, ds, 0);
    SpliceFrom(s, ds, 0)
  }

  /** How much longer the spliced text is than the original (negative when shorter). */
  function Delta(ds: seq<Directive>): int
    decreases |ds|
  {
    if |ds| == 0 then 0 else |ds[0].contents| - ds[0].length + Delta(ds[1..])
  }

  lemma {:induction false} DeltaSnoc(ds: seq<Directive>, d: Directive)
    ensures Delta(ds + [d]) == Delta(ds) + |d.contents| - d.length
    decreases |ds|
  {
    if |ds| > 0 {
      assert (ds + [d])[1..] == ds[1..] + [d];
      DeltaSnoc(ds[1..], d);
    }
  }

  /** The spliced text is as long as the original plus every directive's change in length. */
  lemma {:induction false} SpliceLength(s: seq<char>, ds: seq<Directive>, offset: nat)
    requires offset <= |s| && Placed(ds, offset, |s|)
    ensures |SpliceFrom(s, ds, offset)| == |s| - offset + Delta(ds)
    decreases |ds|
  {
    if |ds| > 0 {
      SpliceLength(s, ds[1..], End(ds[0]));
    }
  }

  /** The last of a list of placed directives starts at or after `from` and ends within `size`. */
  lemma {:induction false} PlacedLast(ds: seq<Directive>, from: nat, size: nat)
    requires |ds| > 0 && Placed(ds, from, size)
    ensures from <= ds[|ds| - 1].pos && End(ds[|ds| - 1]) <= size
    decreases |ds|
  {
    if |ds| > 1 {
      PlacedLast(ds[1..], End(ds[0]), size);
    }
  }

  /** Directives placed within `size` are placed within any larger bound. */
  lemma {:induction false} PlacedWiden(ds: seq<Directive>, from: nat, size: nat, larger: nat)
    requires Placed(ds, from, size) && size <= larger
    ensures Placed(ds, from, larger)
    decreases |ds|
  {
    if |ds| > 0 {
      PlacedWiden(ds[1..], End(ds[0]), size, larger);
    }
  }

  /** Dropping the last directive leaves the others before its start. */
  lemma {:induction false} PlacedDropLast(ds: seq<Directive>, from: nat, size: nat)
    requires |ds| > 0 && Placed(ds, from, size)
    ensures Placed(ds[..|ds| - 1], from, ds[|ds| - 1].pos)
    decreases |ds|
  {
    if |ds| > 1 {
      var rest := ds[1..];
      PlacedDropLast(rest, End(ds[0]), size);
      PlacedLast(rest, End(ds[0]), size);
      assert ds[..|ds| - 1][1..] == rest[..|rest| - 1];
      assert rest[|rest| - 1] == ds[|ds| - 1];
    }
  }

  /** One directive replaced by its contents. */
  function Replace(s: seq<char>, d: Directive): (r: seq<char>)
    requires End(d) <= |s|
    ensures |r| == |s| + |d.contents| - d.length
    ensures r[..d.pos] == s[..d.pos]
    ensures r[d.pos .. d.pos + |d.contents|] == d.contents
    ensures r[d.pos + |d.contents|..] == s[End(d)..]
  {
    s[..d.pos] + d.contents + s[End(d)..]
  }

  /**
   An independent reading of the splice: replace the directives one at a
   time, the last one first, so that the positions of those before it stay
   valid.
   */
  function ReplaceAll(s: seq<char>, ds: seq<Directive>): seq<char>
    requires Placed(ds, 0, |s|)
    decreases |ds|
  {
    if |ds| == 0 then s
    else
      var last := ds[|ds| - 1];
      var init := ds[..|ds| - 1];
      PlacedLast(ds, 0, |s|);
      PlacedDropLast(ds, 0, |s|);
      PlacedWiden(init, 0, last.pos, |Replace(s, last)|);
      ReplaceAll(Replace(s, last), init)
  }

  /** Splicing a list that ends with `d` is splicing the others into the text with `d` already replaced. */
  lemma {:induction false} SpliceSnoc(s: seq<char>, ds: seq<Directive>, d: Directive, offset: nat)
    requires offset <= |s| && Placed(ds + [d], offset, |s|)
    ensures End(d) <= |s| && Placed(ds, offset, |Replace(s, d)|)
    ensures SpliceFrom(s, ds + [d], offset) == SpliceFrom(Replace(s, d), ds, offset)
    decreases |ds|
  {
    var all := ds + [d];
    PlacedLast(all, offset, |s|);
    PlacedDropLast(all, offset, |s|);
    assert all[..|all| - 1] == ds;
    PlacedWiden(ds, offset, d.pos, |Replace(s, d)|);
    var r := Replace(s, d);
    if |ds| == 0 {
      assert all == [d];
      assert all[1..] == [];
      assert r[offset..] == s[offset..d.pos] + d.contents + s[End(d)..];
    } else {
      var e := ds[0];
      assert all[1..] == ds[1..] + [d];
      SpliceSnoc(s, ds[1..], d, End(e));
      PlacedLast(all[1..], End(e), |s|);
      SameSlice(r, s, d.pos, offset, e.pos);
    }
  }

  /** The single left-to-right pass agrees with replacing the directives one by one from the back. */
  lemma {:induction false} SpliceIsReplaceAll(s: seq<char>, ds: seq<Directive>)
    requires Placed(ds, 0, |s|)
    ensures Splice(s, ds) == ReplaceAll(s, ds)
    decreases |ds|
  {
    if |ds| > 0 {
      var last := ds[|ds| - 1];
      var init := ds[..|ds| - 1];
      assert ds == init + [last];
      SpliceSnoc(s, init, last, 0);
      SpliceIsReplaceAll(Replace(s, last), init);
    }
  }

  /**
   The first loop of `zrProcessIncludeDirectives`: the length of the
   result, accumulated in `size_t` as the text's length plus each
   directive's contents minus its span.
   */
  method SplicedLength(size: nat, ds: seq<Directive>) returns (length: nat)
    requires IsSize(size)
    ensures length == Wrap(size + Delta(ds))
  {
    length := size;
    var i := 0;
    while i < |ds|
      invariant 0 <= i <= |ds|
      invariant length == Wrap(size + Delta(ds[..i]))
    {
      var change := |ds[i].contents| - ds[i].length;
      WrapAdd(size + Delta(ds[..i]), change);
      assert ds[..i + 1] == ds[..i] + [ds[i]];
      DeltaSnoc(ds[..i], ds[i]);
      length := Wrap(length + Wrap(change));
      i := i + 1;
    }
    assert ds[..|ds|] == ds;
  }

  /**
   The second loop of `zrProcessIncludeDirectives`: copy the text before
   each directive and then the directive's contents, and finally the rest
   of the text. The assertion at the top of each step always holds: the
   copy offset is the end of the previous directive and lies before the
   next one.
   */
  method CopyPieces(s: seq<char>, ds: seq<Directive>) returns (out: seq<char>)
    requires Placed(ds, 0, |s|)
    ensures out == Splice(s, ds)
  {
    out := [];
    var offset: nat := 0;
    var i := 0;
    while i < |ds|
      invariant 0 <= i <= |ds| && offset <= |s|
      invariant Placed(ds[i..], offset, |s|)
      invariant out + SpliceFrom(s, ds[i..], offset) == Splice(s, ds)
    {
      var d := ds[i];
      assert offset < |s|;
      assert ds[i..][1..] == ds[i + 1..];
      out := out + s[offset..d.pos] + d.contents;
      offset := End(d);
      i := i + 1;
    }
    out := out + s[offset..];
  }

  /**
   `zrProcessIncludeDirectives`, with the final assertion corrected to
   allow a directive that ends the text. Without directives the text is
   left alone; otherwise the result is the text with every directive
   replaced, and the length computed in `size_t` is its length whenever
   that length fits.
   */
  method ProcessIncludeDirectives(s: seq<char>, ds: seq<Directive>) returns (out: seq<char>, length: nat)
    requires IsSize(|s|) && Placed(ds, 0, |s|)
    ensures out == Splice(s, ds) && out == ReplaceAll(s, ds)
    ensures |out| == |s| + Delta(ds)
    ensures length == Wrap(|s| + Delta(ds))
    ensures |out| <= SIZE_MAX ==> length == |out|
    ensures |ds| == 0 ==> out == s
  {
    length := SplicedLength(|s|, ds);
    SpliceLength(s, ds, 0);
    SpliceIsReplaceAll(s, ds);
    if |ds| == 0 {
      out := s;
    } else {
      out := CopyPieces(s, ds);
    }
  }

  /** Where the copy loop leaves the offset: the end of the last directive. */
  function FinalOffset(ds: seq<Directive>): nat {
    if |ds| == 0 then 0 else End(ds[|ds| - 1])
  }

  /**
   The assertion `offset < *pBufferSize` after the copy loop, as written.
   It fails exactly when the last directive runs to the end of the text,
   a case the copy handles correctly (it copies nothing more).
   */
  function FinalCheckAsWritten(s: seq<char>, ds: seq<Directive>): (ok: bool)
    requires Placed(ds, 0, |s|)
    ensures !ok <==> |ds| > 0 && End(ds[|ds| - 1]) == |s|
  {
    if |ds| == 0 then true
    else
      PlacedLast(ds, 0, |s|);
      FinalOffset(ds) < |s|
  }

  /** A file consisting of one directive: `/*@include"a"*/`. */
  const EXAMPLE_TEXT: seq<char> := ['/', '*', '@', 'i', 'n', 'c', 'l', 'u', 'd', 'e', '"', 'a', '"', '*', '/']

  /** The example file's directory. */
  const EXAMPLE_BASE: seq<char> := ['.']

  /** The readable files next to it: `./a` holds `x`. */
  const EXAMPLE_FILES: map<seq<char>, seq<char>> := map[['.', '/', 'a'] := ['x']]

  /** Scanning the example file records one directive spanning all of it. */
  lemma ExampleScanned()
    ensures ScanDirectives(EXAMPLE_TEXT, 0, EXAMPLE_BASE, EXAMPLE_FILES) == Found([Directive(0, 15, ['x'])])
  {
    ExampleParsed();
    ExampleTags();
    ScanDirectivesFirst(EXAMPLE_TEXT, 0, Comment(0, 13), EXAMPLE_BASE, EXAMPLE_FILES);
    ExampleRecorded();
  }

  /** The example's comment, read as the include of `x` with nothing after it, is recorded as one directive. */
  lemma ExampleRecorded()
    ensures Continue(Include(['x']), Comment(0, 13), Found([])) == Found([Directive(0, 15, ['x'])])
  {
    assert [AsDirective(Comment(0, 13), ['x'])] + [] == [Directive(0, 15, ['x'])];
  }

  /** The example's comment includes `./a`, which holds `x`. */
  lemma ExampleParsed()
    ensures MatchesAt(EXAMPLE_TEXT, 13, CLOSING_TAG)
    ensures ParseComment(EXAMPLE_TEXT, 0, 13, EXAMPLE_BASE, EXAMPLE_FILES) == Include(['x'])
  {
    var s := EXAMPLE_TEXT;
    ExampleHead();
    assert QuotesName(s, 0, 13, 10, ['a']);
    assert IncludePath(EXAMPLE_BASE, ['a']) == ['.', '/', 'a'];
    assert MatchesAt(s, 13, CLOSING_TAG);
    QuotedNameParsed(s, 0, 13, 10, ['a'], EXAMPLE_BASE, EXAMPLE_FILES);
  }

  /** The example's comment body opens like an include directive whose quoted path starts at 10. */
  lemma ExampleHead()
    ensures IncludeHead(EXAMPLE_TEXT, 2, 13, 2, 3, 10, 10)
  {
    KeywordCharacters();
    assert EXAMPLE_TEXT[3..10] == ['i', 'n', 'c', 'l', 'u', 'd', 'e'];
  }

  /** The example's one comment opens at 0 and closes at 13, and nothing opens after it. */
  lemma ExampleTags()
    ensures NextComment(EXAMPLE_TEXT, 0) == Some(Comment(0, 13))
    ensures FindFrom(EXAMPLE_TEXT, 15, OPENING_TAG).None?
  {
    var s := EXAMPLE_TEXT;
    assert MatchesAt(s, 0, OPENING_TAG);
    FindFromIs(s, 0, OPENING_TAG, 0);
    forall i | 0 <= i < 13
      ensures !MatchesAt(s, i, CLOSING_TAG)
    {
      assert s[i] != '*' || s[i + 1] != '/';
      assert s[i..i + 2][0] == s[i] && s[i..i + 2][1] == s[i + 1];
    }
    assert MatchesAt(s, 13, CLOSING_TAG);
    FindFromIs(s, 0, CLOSING_TAG, 13);
  }

  /**
   That directive is spliced to `x`, yet the final assertion as written
   rejects it.
   */
  lemma TrailingDirectiveRejected()
    ensures
      var d := Directive(0, 15, ['x']);
      && ScanDirectives(EXAMPLE_TEXT, 0, EXAMPLE_BASE, EXAMPLE_FILES) == Found([d])
      && !FinalCheckAsWritten(EXAMPLE_TEXT, [d])
      && Splice(EXAMPLE_TEXT, [d]) == ['x']
  {
    ExampleScanned();
    SpliceWhole(EXAMPLE_TEXT, Directive(0, 15, ['x']));
  }

  /** A single directive spanning the whole text splices to its contents. */
  lemma SpliceWhole(s: seq<char>, d: Directive)
    requires d.pos == 0 && 0 < d.length && End(d) == |s|
    ensures Placed([d], 0, |s|) && Splice(s, [d]) == d.contents
  {
    assert [d][1..] == [];
    assert SpliceFrom(s, [], End(d)) == [];
    assert Splice(s, [d]) == s[0..0] + d.contents + SpliceFrom(s, [], End(d));
  }
}
