/**
 * Partial-token consumption. A successful parse reports how much of the
 * token view it used as whole tokens plus characters into the next token;
 * the driver then re-presents the rest of that token as the head of the
 * view (src/raw.rs:113, 355-357, 368-370).
 */
module Cursor {
  import opened Seqs

  /** `CanConsume`: whole tokens consumed, then characters consumed of the token after them. */
  datatype Consumed = Consumed(tokens: nat, chars: nat)

  const Nothing := Consumed(0, 0)

  /** `t` without its first `n` characters; empty when `t` is shorter. */
  function DropChars(t: string, n: nat): (r: string)
    ensures |r| <= |t|
    ensures r == t[|t| - |r|..]
    ensures n <= |t| ==> |r| == |t| - n
  {
    if n <= |t| then t[n..] else []
  }

  /** The cost of a view: every character plus one per token. */
  function Size(view: seq<string>): nat {
    if view == [] then 0 else |view[0]| + 1 + Size(view[1..])
  }

  /**
   * The view left once `c` is consumed from `view`: the first `c.tokens`
   * tokens go, then `c.chars` characters of the next one, whose remainder
   * becomes the new head. Consumption past the end of the view empties it,
   * as the underlying iterator simply runs out.
   */
  function Advance(view: seq<string>, c: Consumed): (r: seq<string>)
    ensures c == Nothing ==> r == view
  {
    TrimHead(SkipTokens(view, c.tokens), c.chars)
  }

  /** `view` without its first `n` tokens; empty when it has fewer. */
  function SkipTokens(view: seq<string>, n: nat): seq<string> {
    if n <= |view| then view[n..] else []
  }

  /** `view` with the first `k` characters of its head token dropped. */
  function TrimHead(view: seq<string>, k: nat): seq<string> {
    if k == 0 || view == [] then view
    else [DropChars(view[0], k)] + view[1..]
  }

  /**
   * `CanConsume::then`: consuming `c1` and then `c2` from what remains. When
   * `c2` takes no whole token it continues inside the token `c1` stopped in.
   */
  function Then(c1: Consumed, c2: Consumed): Consumed {
    if c2.tokens == 0 then Consumed(c1.tokens, c1.chars + c2.chars)
    else Consumed(c1.tokens + c2.tokens, c2.chars)
  }

  lemma {:induction false} DropCharsTwice(t: string, a: nat, b: nat)
    ensures DropChars(DropChars(t, a), b) == DropChars(t, a + b)
  {
    if a <= |t| && b <= |t[a..]| {
      assert t[a..][b..] == t[a + b..];
    }
  }

  lemma {:induction false} SizeSuffix(view: seq<string>, n: nat)
    requires n <= |view|
    ensures Size(view[n..]) <= Size(view)
    ensures n > 0 ==> Size(view[n..]) < Size(view)
  {
    if n > 0 {
      assert view[n..] == view[1..][n - 1..];
      SizeSuffix(view[1..], n - 1);
    }
  }

  /** Consumption never grows the view, and consuming anything of a non-empty head token shrinks it. */
  lemma {:induction false} AdvanceShrinks(view: seq<string>, c: Consumed)
    ensures Size(Advance(view, c)) <= Size(view)
    ensures view != [] && c.tokens > 0 ==> Size(Advance(view, c)) < Size(view)
    ensures view != [] && |view[0]| > 0 && c.chars > 0 ==> Size(Advance(view, c)) < Size(view)
  {
    var rest := if c.tokens <= |view| then view[c.tokens..] else [];
    if c.tokens <= |view| {
      SizeSuffix(view, c.tokens);
    }
    if c.chars != 0 && rest != [] {
      assert Advance(view, c)[1..] == rest[1..];
    }
  }

  /**
   * Consuming `c1` and then `c2` leaves the same view as consuming
   * `Then(c1, c2)` at once: the directive parser's combined report is
   * exactly as good as its two parts.
   */
  lemma AdvanceThen(view: seq<string>, c1: Consumed, c2: Consumed)
    ensures Advance(view, Then(c1, c2)) == Advance(Advance(view, c1), c2)
  {
    var rest := SkipTokens(view, c1.tokens);
    if c2.tokens == 0 {
      TrimTwice(rest, c1.chars, c2.chars);
    } else {
      SkipAfterTrim(rest, c1.chars, c2.tokens);
      SkipTwice(view, c1.tokens, c2.tokens);
    }
  }

  lemma SkipTwice(view: seq<string>, a: nat, b: nat)
    ensures SkipTokens(SkipTokens(view, a), b) == SkipTokens(view, a + b)
  {
    if a <= |view| && b <= |view| - a {
      assert view[a..][b..] == view[a + b..];
    }
  }

  lemma TrimTwice(view: seq<string>, a: nat, b: nat)
    ensures TrimHead(TrimHead(view, a), b) == TrimHead(view, a + b)
  {
    if view != [] && a != 0 && b != 0 {
      DropCharsTwice(view[0], a, b);
      var mid := TrimHead(view, a);
      assert mid[0] == DropChars(view[0], a) && mid[1..] == view[1..];
    }
  }

  /** Skipping whole tokens discards whatever was trimmed off the head token. */
  lemma SkipAfterTrim(view: seq<string>, k: nat, n: nat)
    requires n > 0
    ensures SkipTokens(TrimHead(view, k), n) == SkipTokens(view, n)
  {
    if k != 0 && view != [] && n <= |view| {
      assert TrimHead(view, k)[n..] == view[n..];
    }
  }

  /**
   * Consuming `c` within the view drops exactly the text of the first
   * `c.tokens` tokens and `c.chars` characters more: what is left is the
   * rest of the text, nothing lost and nothing added.
   */
  lemma AdvanceExact(view: seq<string>, c: Consumed)
    requires c.tokens < |view| && c.chars <= |view[c.tokens]|
    ensures |Concat(Advance(view, c))| == |Concat(view)| - |Concat(view[..c.tokens])| - c.chars
    ensures var skipped := |Concat(view[..c.tokens])| + c.chars;
      skipped <= |Concat(view)| && Concat(Advance(view, c)) == Concat(view)[skipped..]
  {
    var t, k := c.tokens, c.chars;
    var rest := view[t..];
    var head, tail := Concat(view[..t]), Concat(rest[1..]);
    assert view == view[..t] + rest;
    ConcatAppend(view[..t], rest);
    assert rest == [rest[0]] + rest[1..];
    ConcatAppend([rest[0]], rest[1..]);
    assert Concat(view) == head + (view[t] + tail);
    var left := [view[t][k..]] + rest[1..];
    if k == 0 {
      assert Advance(view, c) == rest;
      assert view[t][k..] == view[t];
    } else {
      assert Advance(view, c) == left;
    }
    ConcatAppend([view[t][k..]], rest[1..]);
    assert Concat(left) == view[t][k..] + tail;
    assert (head + (view[t] + tail))[|head| + k..] == view[t][k..] + tail;
  }

  /** `a` is a suffix of `b`. */
  predicate IsSuffix(a: string, b: string) {
    |a| <= |b| && a == b[|b| - |a|..]
  }

  lemma SuffixTrans(a: string, b: string, c: string)
    requires IsSuffix(a, b) && IsSuffix(b, c)
    ensures IsSuffix(a, c)
  {
    assert c[|c| - |b|..][|b| - |a|..] == c[|c| - |a|..];
  }

  /**
   * No character is ever invented or reordered: the text left after a
   * consumption is a suffix of the text before it.
   */
  lemma AdvanceKeepsSuffix(view: seq<string>, c: Consumed)
    ensures var before, after := Concat(view), Concat(Advance(view, c));
      |after| <= |before| && after == before[|before| - |after|..]
  {
    var rest := SkipTokens(view, c.tokens);
    if c.tokens <= |view| {
      ConcatSuffix(view, c.tokens);
    } else {
      assert Concat(rest) == [];
    }
    TrimKeepsSuffix(rest, c.chars);
    SuffixTrans(Concat(Advance(view, c)), Concat(rest), Concat(view));
  }

  lemma TrimKeepsSuffix(view: seq<string>, k: nat)
    ensures IsSuffix(Concat(TrimHead(view, k)), Concat(view))
  {
    if k != 0 && view != [] {
      var d := DropChars(view[0], k);
      assert view == [view[0]] + view[1..];
      ConcatAppend([view[0]], view[1..]);
      ConcatAppend([d], view[1..]);
      var t := Concat(view[1..]);
      assert (view[0] + t)[|view[0] + t| - |d + t|..] == view[0][|view[0]| - |d|..] + t;
    }
  }

  lemma {:induction false} ConcatSuffix(view: seq<string>, n: nat)
    requires n <= |view|
    ensures var before, after := Concat(view), Concat(view[n..]);
      |after| <= |before| && after == before[|before| - |after|..]
  {
    if n > 0 {
      assert view == [view[0]] + view[1..];
      ConcatAppend([view[0]], view[1..]);
      assert view[n..] == view[1..][n - 1..];
      ConcatSuffix(view[1..], n - 1);
    }
  }
}
