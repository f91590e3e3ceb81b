/**
 * The token stream of `Raw::assemble` (src/raw.rs:207-228): comments are cut
 * out of every source chunk, the remaining pieces are split on whitespace with
 * empty pieces dropped, and every word is split after each `:` so that a label
 * declaration becomes a token of its own that ends in `:`.
 */
module Tokenizer {
  import opened Seqs

  /**
   * Rust's `char::is_whitespace`: the characters with the Unicode White_Space
   * property, U+0009 to U+000D, U+0020, U+0085, U+00A0, U+1680, U+2000 to
   * U+200A, U+2028, U+2029, U+202F, U+205F and U+3000.
   */
  predicate IsWhitespace(c: char) {
    || ('\U{9}' <= c <= '\U{D}')
    || c == '\U{20}' || c == '\U{85}' || c == '\U{A0}' || c == '\U{1680}'
    || ('\U{2000}' <= c <= '\U{200A}')
    || c == '\U{2028}' || c == '\U{2029}' || c == '\U{202F}' || c == '\U{205F}' || c == '\U{3000}'
  }

  predicate IsLineEnd(c: char) { c == '\r' || c == '\n' }

  predicate IsCommentStart(c: char) { c == ';' }

  predicate IsColon(c: char) { c == ':' }

  /** The character classes the tokenizer searches for. */
  datatype CharClass = Whitespace | LineEnd | CommentStart | Colon

  predicate Matches(p: CharClass, c: char) {
    match p
    case Whitespace => IsWhitespace(c)
    case LineEnd => IsLineEnd(c)
    case CommentStart => IsCommentStart(c)
    case Colon => IsColon(c)
  }

  /** No character of `s` satisfies `p`. */
  predicate NoneMatch(s: string, p: CharClass) {
    forall k :: 0 <= k < |s| ==> !Matches(p, s[k])
  }

  predicate NoWhitespace(s: string) { NoneMatch(s, Whitespace) }

  predicate NoLineEnd(s: string) { NoneMatch(s, LineEnd) }

  /** A `:` may only be the last character. */
  predicate ColonOnlyAtEnd(s: string) {
    forall k :: 0 <= k < |s| - 1 ==> s[k] != ':'
  }

  /** The index of the first character of `s` satisfying `p`, or `|s|` when there is none. */
  function FindFirst(s: string, p: CharClass): (i: nat)
    ensures i <= |s|
  {
    if s == [] then 0 else if Matches(p, s[0]) then 0 else 1 + FindFirst(s[1..], p)
  }

  /** `FindFirst` finds the first match: nothing before it matches, and it matches unless it is the end. */
  lemma {:induction false} FindFirstSpec(s: string, p: CharClass)
    ensures var i := FindFirst(s, p);
      && (forall k :: 0 <= k < i ==> !Matches(p, s[k]))
      && (i < |s| ==> Matches(p, s[i]))
  {
    if s != [] && !Matches(p, s[0]) {
      FindFirstSpec(s[1..], p);
      var i := FindFirst(s, p);
      forall k | 0 <= k < i ensures !Matches(p, s[k]) {
        if k > 0 {
          assert s[k] == s[1..][k - 1];
        }
      }
    }
  }

  /** `str::split(p)`: the pieces between the characters satisfying `p`, empty ones included. */
  function SplitOn(s: string, p: CharClass): (parts: seq<string>)
    ensures |parts| >= 1
    ensures forall i :: 0 <= i < |parts| ==> NoneMatch(parts[i], p)
    decreases |s|
  {
    var i := FindFirst(s, p);
    FindFirstSpec(s, p);
    if i == |s| then [s] else [s[..i]] + SplitOn(s[i + 1..], p)
  }

  /** `s` without the characters satisfying `p`. */
  function RemoveMatching(s: string, p: CharClass): (r: string)
    ensures NoneMatch(r, p)
  {
    if s == [] then []
    else (if Matches(p, s[0]) then [] else [s[0]]) + RemoveMatching(s[1..], p)
  }

  /** The text after the first `\r` or `\n` of `s`; empty when `s` has no line end. */
  function AfterLineEnd(s: string): string {
    var j := FindFirst(s, LineEnd);
    if j == |s| then "" else s[j + 1..]
  }

  /**
   * The comment-free pieces of one chunk: the text before each `;`, then the
   * text after the first line end that follows it; a comment with no line
   * end after it swallows the rest of the chunk.
   */
  function StripComments(s: string): (pieces: seq<string>)
    ensures |pieces| >= 1
    decreases |s|
  {
    var i := FindFirst(s, CommentStart);
    if i == |s| then
      [s]
    else
      [s[..i]] + StripComments(AfterLineEnd(s[i + 1..]))
  }

  /** No piece holds a `;`. */
  predicate CommentFree(pieces: seq<string>) {
    forall k :: 0 <= k < |pieces| ==> ';' !in pieces[k]
  }

  /** No piece of a chunk holds a `;`: every comment is gone. */
  lemma {:induction false} StripCommentsCommentFree(s: string)
    ensures CommentFree(StripComments(s))
    decreases |s|
  {
    var i := FindFirst(s, CommentStart);
    BeforeFirstComment(s, i);
    if i == |s| {
      assert s[..i] == s;
      StripCommentsEnd(s);
    } else {
      var after := AfterLineEnd(s[i + 1..]);
      StripCommentsUnfold(s, i);
      StripCommentsCommentFree(after);
      CommentFreeCons(StripComments(s), s[..i], StripComments(after));
    }
  }

  lemma CommentFreeCons(xs: seq<string>, a: string, t: seq<string>)
    requires xs == [a] + t && ';' !in a && CommentFree(t)
    ensures CommentFree(xs)
  {
    forall k | 0 <= k < |xs| ensures ';' !in xs[k] {
      if k > 0 {
        assert xs[k] == t[k - 1];
      }
    }
  }

  /** A chunk without a `;` is one piece. */
  lemma StripCommentsEnd(s: string)
    requires FindFirst(s, CommentStart) == |s|
    ensures StripComments(s) == [s]
  {
  }

  /** `str::split(char::is_whitespace)`. */
  function SplitWhitespace(s: string): seq<string> {
    SplitOn(s, Whitespace)
  }

  /** The non-empty strings of `xs`, in order. */
  function NonEmpty(xs: seq<string>): (r: seq<string>)
    ensures forall i :: 0 <= i < |r| ==> r[i] != []
  {
    if xs == [] then []
    else (if xs[0] == [] then [] else [xs[0]]) + NonEmpty(xs[1..])
  }

  /** `str::split_inclusive(":")`: every piece but the last ends in `:`; no piece is empty. */
  function SplitAfterColons(s: string): (parts: seq<string>)
    decreases |s|
  {
    if s == [] then []
    else
      var i := FindFirst(s, Colon);
      if i == |s| then [s] else [s[..i + 1]] + SplitAfterColons(s[i + 1..])
  }

  /** The strings `NonEmpty` keeps are exactly the non-empty strings of its input. */
  lemma {:induction false} NonEmptyMember(xs: seq<string>, x: string)
    ensures x in NonEmpty(xs) <==> x != [] && x in xs
  {
    if xs != [] {
      NonEmptyMember(xs[1..], x);
      var head := if xs[0] == [] then [] else [xs[0]];
      assert NonEmpty(xs) == head + NonEmpty(xs[1..]);
      assert x in xs <==> x == xs[0] || x in xs[1..] by {
        assert xs == [xs[0]] + xs[1..];
      }
    }
  }

  /** The words of a chunk of comment-free text. */
  function Words(s: string): seq<string> {
    NonEmpty(SplitWhitespace(s))
  }

  /** Comment and whitespace removal over all chunks, before the `:` split. */
  function Cleaned(chunks: seq<string>): seq<string> {
    NonEmpty(FlatMap(SplitWhitespace, FlatMap(StripComments, chunks)))
  }

  /** The token stream both passes of the assembler walk. */
  function Tokenize(chunks: seq<string>): seq<string> {
    FlatMap(SplitAfterColons, Cleaned(chunks))
  }

  /** `s` with every whitespace character removed. */
  function RemoveWhitespace(s: string): string {
    RemoveMatching(s, Whitespace)
  }

  /**
   * A character-by-character reference for comment removal: every comment,
   * from its `;` through the first line end after it (or the end of the
   * chunk), is replaced by one space.
   */
  function Decomment(s: string, inComment: bool): string {
    if s == [] then []
    else if inComment then Decomment(s[1..], !IsLineEnd(s[0]))
    else if s[0] == ';' then [' '] + Decomment(s[1..], true)
    else [s[0]] + Decomment(s[1..], false)
  }

  // ---------------------------------------------------------------------------
  // Helper facts
  // ---------------------------------------------------------------------------

  lemma {:induction false} FindFirstAppend(a: string, t: string, p: CharClass)
    requires forall k :: 0 <= k < |a| ==> !Matches(p, a[k])
    ensures FindFirst(a + t, p) == |a| + FindFirst(t, p)
  {
    if a != [] {
      assert (a + t)[1..] == a[1..] + t;
      FindFirstAppend(a[1..], t, p);
    } else {
      assert a + t == t;
    }
  }

  lemma {:induction false} NonEmptyAppend(a: seq<string>, b: seq<string>)
    ensures NonEmpty(a + b) == NonEmpty(a) + NonEmpty(b)
  {
    if a == [] {
      assert a + b == b;
    } else {
      assert (a + b)[1..] == a[1..] + b;
      NonEmptyAppend(a[1..], b);
    }
  }

  lemma {:induction false} RemoveMatchingAppend(a: string, b: string, p: CharClass)
    ensures RemoveMatching(a + b, p) == RemoveMatching(a, p) + RemoveMatching(b, p)
  {
    if a == [] {
      assert a + b == b;
    } else {
      assert (a + b)[1..] == a[1..] + b;
      RemoveMatchingAppend(a[1..], b, p);
    }
  }

  lemma {:induction false} RemoveMatchingNone(s: string, p: CharClass)
    requires NoneMatch(s, p)
    ensures RemoveMatching(s, p) == s
  {
    if s != [] {
      RemoveMatchingNone(s[1..], p);
    }
  }

  /** A separator character splits the text around it exactly as a chunk boundary does. */
  lemma {:induction false} SplitOnSeparator(a: string, w: char, h: string, p: CharClass)
    requires Matches(p, w)
    ensures SplitOn(a + [w] + h, p) == SplitOn(a, p) + SplitOn(h, p)
    decreases |a|
  {
    var i := FindFirst(a, p);
    assert a + [w] + h == a + ([w] + h);
    FindFirstPrefix(a, [w] + h, p);
    if i == |a| {
      SeparatorFirst(a, w, h, p);
    } else {
      SplitOnSeparator(a[i + 1..], w, h, p);
      SeparatorLater(a, w, h, p, i);
    }
  }

  /** The separator is the first match: it cuts the text exactly between `a` and `h`. */
  lemma SeparatorFirst(a: string, w: char, h: string, p: CharClass)
    requires FindFirst(a, p) == |a| && FindFirst(a + [w] + h, p) == |a|
    ensures SplitOn(a + [w] + h, p) == SplitOn(a, p) + SplitOn(h, p)
  {
    var s := a + [w] + h;
    assert s[..|a|] == a && s[|a| + 1..] == h;
    SplitOnUnfold(s, p, |a|);
    assert SplitOn(a, p) == [a];
  }

  /** A match at `i` inside `a` comes first: both splits cut there, and the rest splits around the separator. */
  lemma SeparatorLater(a: string, w: char, h: string, p: CharClass, i: nat)
    requires i < |a| && FindFirst(a, p) == i && FindFirst(a + [w] + h, p) == i
    requires SplitOn(a[i + 1..] + [w] + h, p) == SplitOn(a[i + 1..], p) + SplitOn(h, p)
    ensures SplitOn(a + [w] + h, p) == SplitOn(a, p) + SplitOn(h, p)
  {
    var s := a + [w] + h;
    var r := a[i + 1..];
    assert s[..i] == a[..i];
    assert s[i + 1..] == r + [w] + h;
    SplitOnAt(s, p, i, a[..i], r + [w] + h);
    SplitOnUnfold(a, p, i);
    Regroup(SplitOn(s, p), SplitOn(a, p), a[..i], SplitOn(r, p), SplitOn(h, p));
  }

  /** `[x] + (t + v)` is `([x] + t) + v`. */
  lemma Regroup<T>(xs: seq<T>, ys: seq<T>, x: T, t: seq<T>, v: seq<T>)
    requires xs == [x] + (t + v) && ys == [x] + t
    ensures xs == ys + v
  {
  }

  /** One unfolding of `SplitOn` at its first match, in terms of the text before and after it. */
  lemma SplitOnAt(s: string, p: CharClass, i: nat, head: string, rest: string)
    requires i < |s| && FindFirst(s, p) == i && head == s[..i] && rest == s[i + 1..]
    ensures SplitOn(s, p) == [head] + SplitOn(rest, p)
  {
    SplitOnUnfold(s, p, i);
    SplitOnCongruence(s[i + 1..], rest, p);
    ConsCongruence(SplitOn(s, p), s[..i], SplitOn(s[i + 1..], p), head, SplitOn(rest, p));
  }

  lemma SplitOnCongruence(x: string, y: string, p: CharClass)
    requires x == y
    ensures SplitOn(x, p) == SplitOn(y, p)
  {
  }

  lemma {:induction false} SplitOnConcat(s: string, p: CharClass)
    ensures Concat(SplitOn(s, p)) == RemoveMatching(s, p)
    decreases |s|
  {
    var i := FindFirst(s, p);
    FindFirstSpec(s, p);
    if i == |s| {
      assert SplitOn(s, p) == [s];
      RemoveMatchingNone(s, p);
    } else {
      SplitOnConcat(s[i + 1..], p);
      SplitOnUnfold(s, p, i);
      ConcatCons(s[..i], SplitOn(s[i + 1..], p));
      RemoveMatchingCut(s, p, i);
    }
  }

  lemma SplitOnUnfold(s: string, p: CharClass, i: nat)
    requires i < |s| && FindFirst(s, p) == i
    ensures SplitOn(s, p) == [s[..i]] + SplitOn(s[i + 1..], p)
  {
  }

  lemma ConcatCons<T>(x: seq<T>, xs: seq<seq<T>>)
    ensures Concat([x] + xs) == x + Concat(xs)
  {
    assert ([x] + xs)[1..] == xs;
  }

  /** Removing matches from text whose first match is at `i`. */
  lemma RemoveMatchingCut(s: string, p: CharClass, i: nat)
    requires i < |s| && Matches(p, s[i]) && forall k :: 0 <= k < i ==> !Matches(p, s[k])
    ensures RemoveMatching(s, p) == s[..i] + RemoveMatching(s[i + 1..], p)
  {
    var a, t := s[..i], s[i..];
    assert s == a + t;
    assert NoneMatch(a, p) by {
      forall k | 0 <= k < |a| ensures !Matches(p, a[k]) {
        assert a[k] == s[k];
      }
    }
    RemoveMatchingAppend(a, t, p);
    RemoveMatchingNone(a, p);
    assert t[0] == s[i] && t[1..] == s[i + 1..];
    RemoveMatchingHead(t, p);
  }

  lemma RemoveMatchingHead(t: string, p: CharClass)
    requires t != [] && Matches(p, t[0])
    ensures RemoveMatching(t, p) == RemoveMatching(t[1..], p)
  {
    assert [] + RemoveMatching(t[1..], p) == RemoveMatching(t[1..], p);
  }

  lemma WhitespaceIsPlain(c: char)
    requires IsWhitespace(c)
    ensures c != ';' && c != ':'
  {
  }

  /** The first match in a prefix-with-a-match, or just past the prefix when its tail matches. */
  lemma {:induction false} FindFirstPrefix(a: string, t: string, p: CharClass)
    requires t != [] && Matches(p, t[0])
    ensures FindFirst(a + t, p) == FindFirst(a, p)
  {
    if a == [] {
      assert a + t == t;
    } else if !Matches(p, a[0]) {
      assert (a + t)[1..] == a[1..] + t;
      FindFirstPrefix(a[1..], t, p);
    }
  }

  /** Text without a `;` runs into the first piece of whatever follows it. */
  lemma {:induction false} StripCommentsPrefix(p: string, q: string)
    requires ';' !in p
    ensures StripComments(p + q) == [p + StripComments(q)[0]] + StripComments(q)[1..]
  {
    forall k | 0 <= k < |p| ensures !IsCommentStart(p[k]) {
      assert p[k] in p;
    }
    FindFirstAppend(p, q, CommentStart);
    var i := FindFirst(q, CommentStart);
    if i == |q| {
      StripCommentsWhole(p, q);
    } else {
      StripCommentsCut(p, q, i);
    }
  }

  lemma StripCommentsWhole(p: string, q: string)
    requires FindFirst(q, CommentStart) == |q| && FindFirst(p + q, CommentStart) == |p + q|
    ensures StripComments(p + q) == [p + StripComments(q)[0]] + StripComments(q)[1..]
  {
    var sq := StripComments(q);
    assert sq == [q];
    assert sq[1..] == [];
    assert StripComments(p + q) == [p + q];
  }

  lemma StripCommentsCut(p: string, q: string, i: nat)
    requires i < |q| && FindFirst(q, CommentStart) == i && FindFirst(p + q, CommentStart) == |p| + i
    ensures StripComments(p + q) == [p + StripComments(q)[0]] + StripComments(q)[1..]
  {
    var tail := StripComments(AfterLineEnd(q[i + 1..]));
    SliceAround(p, q, i);
    StripCommentsAt(q, i, q[..i], q[i + 1..]);
    StripCommentsAt(p + q, |p| + i, p + q[..i], q[i + 1..]);
    PieceShape(p, q[..i], StripComments(q), StripComments(p + q), tail);
  }

  /** The shape of the pieces once the first cut of `p + q` is known to be the first cut of `q`, shifted. */
  lemma PieceShape(p: string, head: string, sq: seq<string>, spq: seq<string>, tail: seq<string>)
    requires sq == [head] + tail && spq == [p + head] + tail
    ensures spq == [p + sq[0]] + sq[1..]
  {
    assert sq[0] == head && sq[1..] == tail;
  }

  /** The pieces of a chunk whose first `;` is at `i`, in terms of the text before and after that `;`. */
  lemma StripCommentsAt(s: string, i: nat, head: string, rest: string)
    requires i < |s| && FindFirst(s, CommentStart) == i && head == s[..i] && rest == s[i + 1..]
    ensures StripComments(s) == [head] + StripComments(AfterLineEnd(rest))
  {
    StripCommentsUnfold(s, i);
    AfterCommentCongruence(s[i + 1..], rest);
    ConsCongruence(StripComments(s), s[..i], StripComments(AfterLineEnd(s[i + 1..])), head, StripComments(AfterLineEnd(rest)));
  }

  /** One unfolding of `StripComments` at its first `;`. */
  lemma StripCommentsUnfold(s: string, i: nat)
    requires i < |s| && FindFirst(s, CommentStart) == i
    ensures StripComments(s) == [s[..i]] + StripComments(AfterLineEnd(s[i + 1..]))
  {
  }

  lemma AfterCommentCongruence(x: string, y: string)
    requires x == y
    ensures StripComments(AfterLineEnd(x)) == StripComments(AfterLineEnd(y))
  {
  }

  lemma ConsCongruence<T>(xs: seq<T>, a: T, t: seq<T>, b: T, u: seq<T>)
    requires xs == [a] + t && a == b && t == u
    ensures xs == [b] + u
  {
  }

  /** Cutting `p + q` around position `i` of `q`. */
  lemma SliceAround<T>(p: seq<T>, q: seq<T>, i: nat)
    requires i < |q|
    ensures (p + q)[..|p| + i] == p + q[..i] && (p + q)[|p| + i + 1..] == q[i + 1..]
  {
  }

  lemma {:induction false} StripCommentsNone(s: string)
    requires ';' !in s
    ensures StripComments(s) == [s]
  {
    StripCommentsPrefix(s, "");
    assert s + "" == s;
  }

  lemma {:induction false} DecommentPlain(a: string, t: string)
    requires ';' !in a
    ensures Decomment(a + t, false) == a + Decomment(t, false)
  {
    if a == [] {
      assert a + t == t;
    } else {
      assert a[0] in a;
      assert (a + t)[1..] == a[1..] + t;
      DecommentPlain(a[1..], t);
    }
  }

  /** Inside a comment, everything up to and including the first line end disappears. */
  lemma {:induction false} DecommentInComment(s: string)
    ensures Decomment(s, true) == Decomment(AfterLineEnd(s), false)
  {
    if s != [] && !IsLineEnd(s[0]) {
      DecommentInComment(s[1..]);
      var j := FindFirst(s[1..], LineEnd);
      assert FindFirst(s, LineEnd) == 1 + j;
      if j < |s[1..]| {
        assert s[1..][j + 1..] == s[j + 2..];
      }
    }
  }

  /** A whitespace character between two stretches of text splits their words. */
  lemma WordsSeparator(a: string, w: char, h: string)
    requires IsWhitespace(w)
    ensures Words(a + [w] + h) == Words(a) + Words(h)
  {
    SplitOnSeparator(a, w, h, Whitespace);
    NonEmptyAppend(SplitWhitespace(a), SplitWhitespace(h));
  }

  lemma {:induction false} CleanedAppend(a: seq<string>, b: seq<string>)
    ensures Cleaned(a + b) == Cleaned(a) + Cleaned(b)
  {
    FlatMapAppend(StripComments, a, b);
    FlatMapAppend(SplitWhitespace, FlatMap(StripComments, a), FlatMap(StripComments, b));
    NonEmptyAppend(FlatMap(SplitWhitespace, FlatMap(StripComments, a)),
                   FlatMap(SplitWhitespace, FlatMap(StripComments, b)));
  }

  // ---------------------------------------------------------------------------
  // Properties of the token stream
  // ---------------------------------------------------------------------------

  /** Chunks are tokenized independently: the stream of a chunk sequence is the streams of its parts, joined. */
  lemma {:induction false} TokenizeAppend(a: seq<string>, b: seq<string>)
    ensures Tokenize(a + b) == Tokenize(a) + Tokenize(b)
  {
    CleanedAppend(a, b);
    FlatMapAppend(SplitAfterColons, Cleaned(a), Cleaned(b));
  }

  /** The words of a sequence of comment-free pieces. */
  function PieceWords(pieces: seq<string>): seq<string> {
    NonEmpty(FlatMap(SplitWhitespace, pieces))
  }

  lemma PieceWordsCons(x: string, tl: seq<string>)
    ensures PieceWords([x] + tl) == Words(x) + PieceWords(tl)
  {
    FlatMapAppend(SplitWhitespace, [x], tl);
    NonEmptyAppend(SplitWhitespace(x), FlatMap(SplitWhitespace, tl));
  }

  lemma CleanedSingle(s: string)
    ensures Cleaned([s]) == PieceWords(StripComments(s))
  {
  }

  /** Two chunks tokenize like one when their cleaned words already agree. */
  lemma TokenizeSplit(x: string, y: string, z: string)
    requires Cleaned([x]) == Cleaned([y]) + Cleaned([z])
    ensures Tokenize([x]) == Tokenize([y, z])
  {
    CleanedAppend([y], [z]);
    assert [y, z] == [y] + [z];
  }

  /** One step of comment removal: the text before the first `;`, then whatever follows the comment's line end. */
  lemma StripCommentsStep(s: string, i: nat)
    requires i == FindFirst(s, CommentStart) && i < |s|
    ensures StripComments(s) == [s[..i]] + StripComments(AfterLineEnd(s[i + 1..]))
    ensures ';' !in s[..i]
    ensures Decomment(s, false) == s[..i] + [' '] + Decomment(AfterLineEnd(s[i + 1..]), false)
  {
    StripCommentsUnfold(s, i);
    BeforeFirstComment(s, i);
    DecommentStep(s, i);
  }

  lemma BeforeFirstComment(s: string, i: nat)
    requires i == FindFirst(s, CommentStart)
    ensures ';' !in s[..i]
  {
    FindFirstSpec(s, CommentStart);
    var a := s[..i];
    forall k | 0 <= k < i ensures a[k] != ';' {
      assert a[k] == s[k];
    }
  }

  /** The reference removal across the first comment of `s`, which starts at `i`. */
  lemma DecommentStep(s: string, i: nat)
    requires i == FindFirst(s, CommentStart) && i < |s|
    ensures Decomment(s, false) == s[..i] + [' '] + Decomment(AfterLineEnd(s[i + 1..]), false)
  {
    FindFirstSpec(s, CommentStart);
    BeforeFirstComment(s, i);
    var a, rest := s[..i], s[i + 1..];
    assert s == a + ([';'] + rest);
    DecommentPlain(a, [';'] + rest);
    assert ([';'] + rest)[1..] == rest;
    DecommentInComment(rest);
  }

  /**
   * Comment stripping agrees with the character-level reference: a comment
   * behaves as one space, whatever it contains.
   */
  lemma {:induction false} StripCommentsMatchesDecomment(s: string)
    ensures Cleaned([s]) == Words(Decomment(s, false))
    decreases |s|
  {
    CleanedSingle(s);
    var i := FindFirst(s, CommentStart);
    FindFirstSpec(s, CommentStart);
    if i == |s| {
      assert ';' !in s by {
        forall k | 0 <= k < |s| ensures s[k] != ';' { }
      }
      StripCommentsNone(s);
      PieceWordsCons(s, []);
      DecommentPlain(s, "");
      assert s + "" == s;
    } else {
      var a := s[..i];
      var after := AfterLineEnd(s[i + 1..]);
      StripCommentsStep(s, i);
      WordsSeparator(a, ' ', Decomment(after, false));
      StripCommentsMatchesDecomment(after);
      CleanedSingle(after);
      PieceWordsCons(a, StripComments(after));
    }
  }

  /** The cleaned words of one chunk: those of its first comment-free piece, then those of the rest. */
  lemma CleanedHead(s: string)
    ensures Cleaned([s]) == Words(StripComments(s)[0]) + PieceWords(StripComments(s)[1..])
  {
    var pieces := StripComments(s);
    assert pieces == [pieces[0]] + pieces[1..];
    CleanedSingle(s);
    PieceWordsCons(pieces[0], pieces[1..]);
  }

  /** A chunk whose pieces are `x` and then `tl` is cleaned into the words of `x`, then those of `tl`. */
  lemma CleanedFromPieces(s: string, x: string, tl: seq<string>)
    requires StripComments(s) == [x] + tl
    ensures Cleaned([s]) == Words(x) + PieceWords(tl)
  {
    CleanedHead(s);
    assert ([x] + tl)[0] == x;
    assert ([x] + tl)[1..] == tl;
  }

  /** A chunk without `;` is cleaned into its words. */
  lemma CleanedPlain(a: string)
    requires ';' !in a
    ensures Cleaned([a]) == Words(a)
  {
    StripCommentsNone(a);
    CleanedSingle(a);
    PieceWordsCons(a, []);
  }

  lemma StripCommentsWhitespace(a: string, w: char, b: string)
    requires ';' !in a && IsWhitespace(w)
    ensures StripComments(a + [w] + b) == [a + [w] + StripComments(b)[0]] + StripComments(b)[1..]
  {
    WhitespaceIsPlain(w);
    NoCommentAppendChar(a, w);
    StripCommentsPrefix(a + [w], b);
  }

  lemma CleanedWhitespace(a: string, w: char, b: string)
    requires ';' !in a && IsWhitespace(w)
    ensures Cleaned([a + [w] + b]) == Cleaned([a]) + Cleaned([b])
  {
    var h, tl := StripComments(b)[0], StripComments(b)[1..];
    var x := a + [w] + h;
    StripCommentsWhitespace(a, w, b);
    CleanedFromPieces(a + [w] + b, x, tl);
    WordsSeparator(a, w, h);
    CleanedHead(b);
    CleanedPlain(a);
    Regroup3(Cleaned([a + [w] + b]), Cleaned([a]), Cleaned([b]), Words(a), Words(h), PieceWords(tl));
  }

  lemma Regroup3<T>(c: seq<T>, ca: seq<T>, cb: seq<T>, p: seq<T>, q: seq<T>, r: seq<T>)
    requires c == (p + q) + r && ca == p && cb == q + r
    ensures c == ca + cb
  {
  }

  /** Inserting one whitespace character where no comment is open does not change the tokens. */
  lemma IgnoredWhitespace(a: string, w: char, b: string)
    requires ';' !in a && IsWhitespace(w)
    ensures Tokenize([a + [w] + b]) == Tokenize([a, b])
  {
    CleanedWhitespace(a, w, b);
    TokenizeSplit(a + [w] + b, a, b);
  }

  lemma NoCommentAppendChar(a: string, w: char)
    requires ';' !in a && w != ';'
    ensures ';' !in a + [w]
  {
    assert forall k :: 0 <= k < |a + [w]| ==> (a + [w])[k] == if k < |a| then a[k] else w;
  }

  /** Inserting a whole comment, line end included, where no comment is open does not change the tokens. */
  lemma IgnoredComment(a: string, c: string, nl: char, b: string)
    requires ';' !in a && NoLineEnd(c) && IsLineEnd(nl)
    ensures Tokenize([a + [';'] + c + [nl] + b]) == Tokenize([a, b])
  {
    CommentRemoved(a, c, nl, b);
    StripCommentsNone(a);
    FlatMapAppend(StripComments, [a], [b]);
    assert [a, b] == [a] + [b];
  }

  /** The comment and its line end leave the text before it as one piece and the text after it to be stripped. */
  lemma CommentRemoved(a: string, c: string, nl: char, b: string)
    requires ';' !in a && NoLineEnd(c) && IsLineEnd(nl)
    ensures StripComments(a + [';'] + c + [nl] + b) == [a] + StripComments(b)
  {
    var s := a + [';'] + c + [nl] + b;
    var rest := c + ([nl] + b);
    forall k | 0 <= k < |a| ensures !IsCommentStart(a[k]) {
      assert a[k] in a;
    }
    assert s == a + ([';'] + rest);
    FindFirstAppend(a, [';'] + rest, CommentStart);
    assert s[..|a|] == a && s[|a| + 1..] == rest;
    StripCommentsAt(s, |a|, a, rest);
    LineEndSkipped(c, nl, b);
  }

  lemma LineEndSkipped(c: string, nl: char, b: string)
    requires NoLineEnd(c) && IsLineEnd(nl)
    ensures AfterLineEnd(c + ([nl] + b)) == b
  {
    var rest := [nl] + b;
    var t := c + rest;
    assert IsLineEnd(rest[0]);
    assert FindFirst(rest, LineEnd) == 0;
    FindFirstAppend(c, rest, LineEnd);
    assert FindFirst(t, LineEnd) == |c| < |t|;
    assert t[|c| + 1..] == b;
  }

  /**
   * Every token is non-empty, holds no whitespace, and carries a `:` only as
   * its last character.
   */
  lemma TokensWellFormed(chunks: seq<string>)
    ensures forall t :: t in Tokenize(chunks) ==>
      t != [] && NoWhitespace(t) && ColonOnlyAtEnd(t)
  {
    forall t | t in Tokenize(chunks)
      ensures t != [] && NoWhitespace(t) && ColonOnlyAtEnd(t)
    {
      FlatMapMember(SplitAfterColons, Cleaned(chunks), t);
      var i :| 0 <= i < |Cleaned(chunks)| && t in SplitAfterColons(Cleaned(chunks)[i]);
      var word := Cleaned(chunks)[i];
      NonEmptyMember(FlatMap(SplitWhitespace, FlatMap(StripComments, chunks)), word);
      assert word in FlatMap(SplitWhitespace, FlatMap(StripComments, chunks));
      FlatMapMember(SplitWhitespace, FlatMap(StripComments, chunks), word);
      ColonPartsWellFormed(word, t);
    }
  }

  lemma {:induction false} ColonPartsWellFormed(word: string, t: string)
    requires word != [] && NoWhitespace(word)
    requires t in SplitAfterColons(word)
    ensures t != [] && NoWhitespace(t) && ColonOnlyAtEnd(t)
    decreases |word|
  {
    var i := FindFirst(word, Colon);
    if i == |word| {
      SplitAfterColonsWhole(word);
      FirstColonPart(word, i);
    } else {
      SplitAfterColonsUnfold(word, i);
      FirstColonPart(word, i);
      if t != word[..i + 1] {
        ColonPartsWellFormed(word[i + 1..], t);
      }
    }
  }

  lemma SplitAfterColonsWhole(s: string)
    requires s != [] && FindFirst(s, Colon) == |s|
    ensures SplitAfterColons(s) == [s]
  {
  }

  lemma SplitAfterColonsUnfold(s: string, i: nat)
    requires i < |s| && FindFirst(s, Colon) == i
    ensures SplitAfterColons(s) == [s[..i + 1]] + SplitAfterColons(s[i + 1..])
  {
  }

  /**
   * The part of a whitespace-free word up to its first `:` (or the whole word
   * when it has none) is non-empty, free of whitespace and has no `:` before
   * its end; so is whatever follows it.
   */
  lemma FirstColonPart(word: string, i: nat)
    requires word != [] && NoWhitespace(word) && FindFirst(word, Colon) == i
    ensures var part := if i == |word| then word else word[..i + 1];
      part != [] && NoWhitespace(part) && ColonOnlyAtEnd(part)
    ensures i < |word| ==> NoWhitespace(word[i + 1..])
  {
    FindFirstSpec(word, Colon);
    var part := if i == |word| then word else word[..i + 1];
    forall k | 0 <= k < |part| - 1 ensures part[k] != ':' {
      assert part[k] == word[k] && !Matches(Colon, word[k]);
    }
    forall k | 0 <= k < |part| ensures !Matches(Whitespace, part[k]) {
      assert part[k] == word[k];
    }
    if i < |word| {
      var rest := word[i + 1..];
      forall k | 0 <= k < |rest| ensures !Matches(Whitespace, rest[k]) {
        assert rest[k] == word[i + 1 + k];
      }
    }
  }

  lemma {:induction false} SplitAfterColonsConcat(s: string)
    ensures Concat(SplitAfterColons(s)) == s
    decreases |s|
  {
    if s != [] {
      var i := FindFirst(s, Colon);
      if i < |s| {
        SplitAfterColonsConcat(s[i + 1..]);
        assert s == s[..i + 1] + s[i + 1..];
      }
    }
  }

  /**
   * The parts of `split_inclusive(":")`: none is empty, none holds a `:`
   * before its last character, and every part but the last ends in `:`.
   * With `SplitAfterColonsConcat` this fixes the parts completely.
   */
  predicate ColonParts(parts: seq<string>) {
    forall k :: 0 <= k < |parts| ==>
      parts[k] != [] && ColonOnlyAtEnd(parts[k]) && (k < |parts| - 1 ==> parts[k][|parts[k]| - 1] == ':')
  }

  lemma {:induction false} SplitAfterColonsParts(s: string)
    ensures ColonParts(SplitAfterColons(s))
    decreases |s|
  {
    if s != [] {
      var i := FindFirst(s, Colon);
      FindFirstSpec(s, Colon);
      if i == |s| {
        SplitAfterColonsWhole(s);
        assert ColonOnlyAtEnd(s) by {
          forall k | 0 <= k < |s| - 1 ensures s[k] != ':' { assert !Matches(Colon, s[k]); }
        }
      } else {
        var part, rest := s[..i + 1], SplitAfterColons(s[i + 1..]);
        SplitAfterColonsUnfold(s, i);
        SplitAfterColonsParts(s[i + 1..]);
        assert ColonOnlyAtEnd(part) by {
          forall k | 0 <= k < |part| - 1 ensures part[k] != ':' { assert !Matches(Colon, s[k]); }
        }
        ColonPartsCons(part, rest);
      }
    }
  }

  lemma ColonPartsCons(part: string, rest: seq<string>)
    requires part != [] && ColonOnlyAtEnd(part) && part[|part| - 1] == ':' && ColonParts(rest)
    ensures ColonParts([part] + rest)
  {
    var parts := [part] + rest;
    forall k | 0 < k < |parts| ensures parts[k] == rest[k - 1] {}
  }

  lemma {:induction false} NonEmptyConcat(xs: seq<string>)
    ensures Concat(NonEmpty(xs)) == Concat(xs)
  {
    if xs != [] {
      NonEmptyConcat(xs[1..]);
      ConcatAppend(if xs[0] == [] then [] else [xs[0]], NonEmpty(xs[1..]));
    }
  }

  lemma {:induction false} FlatMapColonConcat(xs: seq<string>)
    ensures Concat(FlatMap(SplitAfterColons, xs)) == Concat(xs)
  {
    if xs != [] {
      FlatMapColonConcat(xs[1..]);
      ConcatAppend(SplitAfterColons(xs[0]), FlatMap(SplitAfterColons, xs[1..]));
      SplitAfterColonsConcat(xs[0]);
    }
  }

  lemma {:induction false} FlatMapWhitespaceConcat(xs: seq<string>)
    ensures Concat(FlatMap(SplitWhitespace, xs)) == RemoveWhitespace(Concat(xs))
  {
    if xs != [] {
      FlatMapWhitespaceConcat(xs[1..]);
      ConcatAppend(SplitWhitespace(xs[0]), FlatMap(SplitWhitespace, xs[1..]));
      SplitOnConcat(xs[0], Whitespace);
      RemoveMatchingAppend(xs[0], Concat(xs[1..]), Whitespace);
    }
  }

  /** Joining the tokens gives back the comment-free text with its whitespace removed: nothing is lost or duplicated. */
  lemma TokensConcat(chunks: seq<string>)
    ensures Concat(Tokenize(chunks)) == RemoveWhitespace(Concat(FlatMap(StripComments, chunks)))
  {
    FlatMapColonConcat(Cleaned(chunks));
    NonEmptyConcat(FlatMap(SplitWhitespace, FlatMap(StripComments, chunks)));
    FlatMapWhitespaceConcat(FlatMap(StripComments, chunks));
  }
}
