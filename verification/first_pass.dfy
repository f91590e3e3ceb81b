/**
 * The first pass of `Raw::assemble` (src/raw.rs:246-306): walk the token
 * stream once, recording the byte address of every label declaration and
 * counting the bytes each instruction and data directive will occupy.
 */
module FirstPass {
  import opened Wrappers
  import opened Grouping
  import opened Cursor
  import opened Directive
  import opened Isa

  /** The ways assembly can fail. */
  datatype AsmError =
    | DuplicateLabel(name: string)
    | DirectiveFailed(cause: DirError)
    | UnknownLabel(fragment: string)
    | InvalidValue(value: int, min: int, max: int)

  /** What the first pass learns: the address of every label, and the byte count it reached. */
  datatype Layout = Layout(labels: map<string, int>, size: int)

  /**
   * The token at `i` declares a label: it ends in `:`, or the token after it
   * is a lone `:` (src/raw.rs:259).
   */
  predicate LabelAt(ts: seq<string>, i: nat)
    requires i < |ts|
  {
    EndsWithColon(ts[i]) || (i + 1 < |ts| && ts[i + 1] == ":")
  }

  /**
   * The tokens left after a directive that began at the token just taken:
   * that token counts towards `c.tokens`, and a partly consumed token is
   * dropped whole, as the first pass discards the remainder (src/raw.rs:285-290).
   */
  function Pass1Skip(rest: seq<string>, c: Consumed): seq<string> {
    var n := c.tokens + (if c.chars > 0 then 1 else 0);
    if n <= 1 then rest else if n - 1 <= |rest| then rest[n - 1..] else []
  }

  /**
   * The first pass over the tokens `ts` still to read, with the labels found
   * so far and the byte count reached. A label is recorded at the current
   * count and may not be declared twice; a `.bytes` directive is parsed with
   * a resolver that knows every symbol, and adds its width; a mnemonic adds
   * the two bytes of an instruction word; every other token adds nothing.
   */
  function Pass1(syn: Syntax, ts: seq<string>, labels: map<string, int>, count: int): (r: Result<Layout, AsmError>)
    ensures r.Ok? ==> labels.Keys <= r.value.labels.Keys
    ensures r.Ok? ==> r.value.size >= count
    ensures r.Err? ==> r.error.DuplicateLabel? || r.error.DirectiveFailed?
    decreases |ts|
  {
    if ts == [] then Ok(Layout(labels, count))
    else
      var tok := ts[0];
      var rest := ts[1..];
      if LabelAt(ts, 0) then
        var name := LabelName(tok);
        if name in labels then Err(DuplicateLabel(name))
        else Pass1(syn, rest, labels[name := count], count)
      else if tok == BytesKeyword then
        match ParseBytesDirective(syn.directive, ts, Placeholder)
        case Ok(e) =>
          Pass1SkipSuffix(rest, e.consumed);
          Pass1(syn, Pass1Skip(rest, e.consumed), labels, count + |e.bytes|)
        case Err(err) => Err(DirectiveFailed(err))
      else if tok in syn.mnemonics then
        Pass1(syn, rest, labels, count + 2)
      else
        Pass1(syn, rest, labels, count)
  }

  // ---------------------------------------------------------------------------
  // A reference layout for streams without data directives
  // ---------------------------------------------------------------------------

  predicate NoDirectives(ts: seq<string>) {
    forall i :: 0 <= i < |ts| ==> ts[i] != BytesKeyword
  }

  /** The bytes the token at `i` occupies: two for an instruction mnemonic that is not a label, else none. */
  function Cost(syn: Syntax, ts: seq<string>, i: nat): nat
    requires i < |ts|
  {
    if !LabelAt(ts, i) && ts[i] in syn.mnemonics then 2 else 0
  }

  /** The bytes occupied by the tokens before position `k`. */
  function CountedBytes(syn: Syntax, ts: seq<string>, k: nat): nat
    requires k <= |ts|
  {
    if k == 0 then 0 else CountedBytes(syn, ts, k - 1) + Cost(syn, ts, k - 1)
  }

  /** Every label declared before `k`, at the byte count of its position. */
  function LabelMap(syn: Syntax, ts: seq<string>, k: nat): map<string, int>
    requires k <= |ts|
  {
    if k == 0 then map[]
    else
      var m := LabelMap(syn, ts, k - 1);
      if LabelAt(ts, k - 1) then m[LabelName(ts[k - 1]) := CountedBytes(syn, ts, k - 1)] else m
  }

  /** No two label declarations before `k` share a name. */
  predicate DistinctLabels(ts: seq<string>, k: nat)
    requires k <= |ts|
  {
    forall i, j :: 0 <= i < j < k && LabelAt(ts, i) && LabelAt(ts, j) ==> LabelName(ts[i]) != LabelName(ts[j])
  }

  /** The names of `LabelMap` are exactly the labels declared before `k`. */
  lemma {:induction false} LabelMapKeys(syn: Syntax, ts: seq<string>, k: nat, name: string)
    requires k <= |ts|
    ensures name in LabelMap(syn, ts, k) <==> exists i :: 0 <= i < k && LabelAt(ts, i) && LabelName(ts[i]) == name
  {
    if k > 0 {
      LabelMapKeys(syn, ts, k - 1, name);
    }
  }

  /** With distinct names, each label maps to the byte count at its declaration. */
  lemma {:induction false} LabelMapValue(syn: Syntax, ts: seq<string>, k: nat, i: nat)
    requires i < k <= |ts| && LabelAt(ts, i) && DistinctLabels(ts, k)
    ensures LabelName(ts[i]) in LabelMap(syn, ts, k)
    ensures LabelMap(syn, ts, k)[LabelName(ts[i])] == CountedBytes(syn, ts, i)
  {
    if i < k - 1 {
      LabelMapValue(syn, ts, k - 1, i);
    }
  }

  /** One token of the first pass, from the reference layout at `k` to the reference layout at `k + 1`. */
  lemma Pass1Step(syn: Syntax, ts: seq<string>, k: nat)
    requires NoDirectives(ts) && k < |ts| && DistinctLabels(ts, k)
    ensures var suffix := ts[k..];
      var r := Pass1(syn, suffix, LabelMap(syn, ts, k), CountedBytes(syn, ts, k));
      if LabelAt(ts, k) && LabelName(ts[k]) in LabelMap(syn, ts, k) then
        r == Err(DuplicateLabel(LabelName(ts[k]))) && !DistinctLabels(ts, k + 1)
      else
        DistinctLabels(ts, k + 1)
        && r == Pass1(syn, ts[k + 1..], LabelMap(syn, ts, k + 1), CountedBytes(syn, ts, k + 1))
  {
    var suffix := ts[k..];
    assert suffix[0] == ts[k] && suffix[1..] == ts[k + 1..];
    assert LabelAt(suffix, 0) == LabelAt(ts, k);
    if LabelAt(ts, k) && LabelName(ts[k]) in LabelMap(syn, ts, k) {
      LabelMapKeys(syn, ts, k, LabelName(ts[k]));
    } else if LabelAt(ts, k) {
      LabelMapKeys(syn, ts, k, LabelName(ts[k]));
    } else {
      assert ts[k] != BytesKeyword;
    }
  }

  /**
   * From the reference layout at `k` the first pass finishes with the
   * reference layout of the whole stream, or fails exactly when some label
   * is declared twice.
   */
  lemma {:induction false} Pass1Suffix(syn: Syntax, ts: seq<string>, k: nat)
    requires NoDirectives(ts) && k <= |ts| && DistinctLabels(ts, k)
    ensures var r := Pass1(syn, ts[k..], LabelMap(syn, ts, k), CountedBytes(syn, ts, k));
      && (r.Ok? <==> DistinctLabels(ts, |ts|))
      && (r.Ok? ==> r.value == Layout(LabelMap(syn, ts, |ts|), CountedBytes(syn, ts, |ts|)))
      && (r.Err? ==> r.error.DuplicateLabel?)
    decreases |ts| - k
  {
    if k == |ts| {
      assert ts[k..] == [];
    } else {
      Pass1Step(syn, ts, k);
      if LabelAt(ts, k) && LabelName(ts[k]) in LabelMap(syn, ts, k) {
        RepeatStays(ts, k + 1, |ts|);
      } else {
        Pass1Suffix(syn, ts, k + 1);
        assert Pass1(syn, ts[k..], LabelMap(syn, ts, k), CountedBytes(syn, ts, k))
            == Pass1(syn, ts[k + 1..], LabelMap(syn, ts, k + 1), CountedBytes(syn, ts, k + 1));
      }
    }
  }

  /** A label repeated before `k` is repeated before any later point. */
  lemma RepeatStays(ts: seq<string>, k: nat, n: nat)
    requires k <= n <= |ts| && !DistinctLabels(ts, k)
    ensures !DistinctLabels(ts, n)
  {
  }

  /**
   * On a stream without data directives the first pass succeeds exactly when
   * no label is declared twice (and otherwise reports a duplicate label); it
   * then records every declared label, and nothing else, at twice the number
   * of instruction mnemonics before the declaration, and its final count is
   * twice the number of mnemonics in the stream.
   */
  lemma LabelAddresses(syn: Syntax, ts: seq<string>)
    requires NoDirectives(ts)
    ensures var r := Pass1(syn, ts, map[], 0);
      && (r.Ok? <==> DistinctLabels(ts, |ts|))
      && (r.Err? ==> r.error.DuplicateLabel?)
      && (r.Ok? ==> r.value.size == CountedBytes(syn, ts, |ts|))
      && (r.Ok? ==> forall i :: 0 <= i < |ts| && LabelAt(ts, i) ==>
            LabelName(ts[i]) in r.value.labels && r.value.labels[LabelName(ts[i])] == CountedBytes(syn, ts, i))
      && (r.Ok? ==> forall name :: name in r.value.labels ==>
            exists i :: 0 <= i < |ts| && LabelAt(ts, i) && LabelName(ts[i]) == name)
  {
    assert ts[0..] == ts;
    Pass1Suffix(syn, ts, 0);
    var r := Pass1(syn, ts, map[], 0);
    if r.Ok? {
      forall i | 0 <= i < |ts| && LabelAt(ts, i)
        ensures LabelName(ts[i]) in r.value.labels && r.value.labels[LabelName(ts[i])] == CountedBytes(syn, ts, i)
      {
        LabelMapValue(syn, ts, |ts|, i);
      }
      forall name | name in r.value.labels
        ensures exists i :: 0 <= i < |ts| && LabelAt(ts, i) && LabelName(ts[i]) == name
      {
        LabelMapKeys(syn, ts, |ts|, name);
      }
    }
  }

  /** A label declared twice is refused, whatever the instruction set. */
  lemma DuplicateLabelRefused(syn: Syntax)
    ensures Pass1(syn, ["foo:", "foo:"], map[], 0) == Err(DuplicateLabel("foo"))
  {
    assert LabelName("foo:") == "foo";
    var ts := ["foo:", "foo:"];
    assert LabelAt(ts, 0);
    assert ts[1..] == ["foo:"];
  }

  /** A label declared with a lone `:` after it, as in `next : inc`, is recorded like `next:`. */
  lemma SpacedColonLabel(syn: Syntax)
    requires "inc" in syn.mnemonics
    ensures var r := Pass1(syn, ["inc", "next", ":", "inc"], map[], 0);
      r.Ok? && "next" in r.value.labels && r.value.labels["next"] == 2
  {
    var ts := ["inc", "next", ":", "inc"];
    assert LabelName("next") == "next";
    assert LabelName(":") == "";
    assert !LabelAt(ts, 0) && LabelAt(ts, 1) && LabelAt(ts, 2);
    assert ts[1..] == ["next", ":", "inc"];
    assert ts[1..][1..] == [":", "inc"];
    assert ts[1..][1..][1..] == ["inc"];
  }

  /**
   * After a directive that began at `tok`, the first pass goes on exactly
   * where the cursor would be after consuming the directive's whole tokens
   * and the token it stopped in: the partly consumed token is discarded
   * rather than re-presented, as the second pass would.
   */
  lemma Pass1SkipAdvance(tok: string, rest: seq<string>, c: Consumed)
    ensures var n := c.tokens + (if c.chars > 0 then 1 else 0);
      Pass1Skip(rest, c) == Advance([tok] + rest, Consumed(if n == 0 then 1 else n, 0))
    ensures c.chars > 0 ==> Pass1Skip(rest, c) == SkipTokens(Advance([tok] + rest, c), 1)
  {
    var n := c.tokens + (if c.chars > 0 then 1 else 0);
    SkipWhole(tok, rest, if n == 0 then 1 else n);
    if c.chars > 0 {
      SkipPartial(tok, rest, c);
    }
  }

  /** What the first pass skips to is a suffix of the tokens after the keyword. */
  lemma Pass1SkipSuffix(rest: seq<string>, c: Consumed)
    ensures var r := Pass1Skip(rest, c); |r| <= |rest| && r == rest[|rest| - |r|..]
  {
  }

  lemma SkipWhole(tok: string, rest: seq<string>, n: nat)
    requires n >= 1
    ensures SkipTokens([tok] + rest, n) == if n - 1 <= |rest| then rest[n - 1..] else []
  {
    if n - 1 <= |rest| {
      assert ([tok] + rest)[n..] == rest[n - 1..];
    }
  }

  lemma SkipPartial(tok: string, rest: seq<string>, c: Consumed)
    requires c.chars > 0
    ensures Pass1Skip(rest, c) == SkipTokens(Advance([tok] + rest, c), 1)
  {
    var view := [tok] + rest;
    var s := SkipTokens(view, c.tokens);
    if c.tokens < |view| {
      assert s == view[c.tokens..] && s != [];
      assert TrimHead(s, c.chars)[1..] == s[1..] == rest[c.tokens..];
    } else {
      assert s == [];
    }
  }

  /** Every name of `labels` is declared by a label token before position `k`. */
  ghost predicate DeclaredBefore(ts: seq<string>, k: nat, labels: map<string, int>)
    requires k <= |ts|
  {
    forall name :: name in labels ==> exists i :: 0 <= i < k && LabelAt(ts, i) && LabelName(ts[i]) == name
  }

  lemma DeclaredLater(ts: seq<string>, k: nat, j: nat, labels: map<string, int>)
    requires k <= j <= |ts| && DeclaredBefore(ts, k, labels)
    ensures DeclaredBefore(ts, j, labels)
  {
    forall name | name in labels
      ensures exists i :: 0 <= i < j && LabelAt(ts, i) && LabelName(ts[i]) == name
    {
      var i :| 0 <= i < k && LabelAt(ts, i) && LabelName(ts[i]) == name;
    }
  }

  lemma DeclaredHere(ts: seq<string>, k: nat, labels: map<string, int>, count: int)
    requires k < |ts| && LabelAt(ts, k) && DeclaredBefore(ts, k, labels)
    ensures DeclaredBefore(ts, k + 1, labels[LabelName(ts[k]) := count])
  {
    var m := labels[LabelName(ts[k]) := count];
    forall name | name in m
      ensures exists i :: 0 <= i < k + 1 && LabelAt(ts, i) && LabelName(ts[i]) == name
    {
      if name != LabelName(ts[k]) {
        var i :| 0 <= i < k && LabelAt(ts, i) && LabelName(ts[i]) == name;
      }
    }
  }

  /**
   * At a `.bytes` token the first pass either fails on the directive or goes
   * on, with the labels unchanged, from a shorter suffix `rest` of the tokens.
   */
  lemma Pass1AtDirective(syn: Syntax, ts: seq<string>, labels: map<string, int>, count: int)
    returns (rest: seq<string>, next: int)
    requires ts != [] && !LabelAt(ts, 0) && ts[0] == BytesKeyword
    ensures |rest| < |ts| && rest == ts[|ts| - |rest|..]
    ensures var r := Pass1(syn, ts, labels, count);
      r == Pass1(syn, rest, labels, next) || (r.Err? && r.error.DirectiveFailed?)
  {
    var dir := ParseBytesDirective(syn.directive, ts, Placeholder);
    if dir.Ok? {
      rest := Pass1Skip(ts[1..], dir.value.consumed);
      next := count + |dir.value.bytes|;
      Pass1SkipSuffix(ts[1..], dir.value.consumed);
      SuffixOfTail(ts, rest);
    } else {
      rest, next := ts[1..], count;
    }
  }

  lemma SuffixOfTail<T>(ts: seq<T>, rest: seq<T>)
    requires ts != [] && |rest| <= |ts| - 1 && rest == ts[1..][|ts| - 1 - |rest|..]
    ensures rest == ts[|ts| - |rest|..]
  {
  }

  /** A suffix of a suffix of `ts` is a suffix of `ts`. */
  lemma SuffixOfSuffix<T>(ts: seq<T>, tail: seq<T>, rest: seq<T>)
    requires |tail| <= |ts| && tail == ts[|ts| - |tail|..]
    requires |rest| <= |tail| && rest == tail[|tail| - |rest|..]
    ensures rest == ts[|ts| - |rest|..]
  {
  }

  /** The first two tokens of a suffix `tail` of `ts`, and what follows them, in terms of `ts`. */
  lemma SuffixHead(ts: seq<string>, tail: seq<string>)
    requires 0 < |tail| <= |ts| && tail == ts[|ts| - |tail|..]
    ensures var k := |ts| - |tail|;
      tail[0] == ts[k] && tail[1..] == ts[k + 1..] && LabelAt(tail, 0) == LabelAt(ts, k)
  {
  }

  /** A label token whose name is already recorded repeats an earlier declaration. */
  lemma RepeatedHere(ts: seq<string>, k: nat, labels: map<string, int>)
    requires k < |ts| && LabelAt(ts, k) && LabelName(ts[k]) in labels && DeclaredBefore(ts, k, labels)
    ensures !DistinctLabels(ts, |ts|)
  {
    var i :| 0 <= i < k && LabelAt(ts, i) && LabelName(ts[i]) == LabelName(ts[k]);
  }

  /**
   * From any point of the stream, with labels recorded only from earlier
   * declarations, a duplicate-label error of the first pass means that
   * some label name really is declared twice. Data directives included.
   */
  lemma {:induction false} Pass1DuplicateFrom(syn: Syntax, ts: seq<string>, tail: seq<string>, labels: map<string, int>, count: int)
    requires |tail| <= |ts| && tail == ts[|ts| - |tail|..] && DeclaredBefore(ts, |ts| - |tail|, labels)
    ensures var r := Pass1(syn, tail, labels, count);
      r.Err? && r.error.DuplicateLabel? ==> !DistinctLabels(ts, |ts|)
    decreases |tail|
  {
    if tail != [] {
      var k := |ts| - |tail|;
      SuffixHead(ts, tail);
      SuffixOfSuffix(ts, tail, tail[1..]);
      if LabelAt(ts, k) {
        var name := LabelName(ts[k]);
        if name in labels {
          RepeatedHere(ts, k, labels);
        } else {
          DeclaredHere(ts, k, labels, count);
          Pass1DuplicateFrom(syn, ts, tail[1..], labels[name := count], count);
        }
      } else if ts[k] == BytesKeyword {
        var rest, next := Pass1AtDirective(syn, tail, labels, count);
        SuffixOfSuffix(ts, tail, rest);
        DeclaredLater(ts, k, |ts| - |rest|, labels);
        Pass1DuplicateFrom(syn, ts, rest, labels, next);
      } else if ts[k] in syn.mnemonics {
        DeclaredLater(ts, k, k + 1, labels);
        Pass1DuplicateFrom(syn, ts, tail[1..], labels, count + 2);
      } else {
        DeclaredLater(ts, k, k + 1, labels);
        Pass1DuplicateFrom(syn, ts, tail[1..], labels, count);
      }
    }
  }

  /**
   * The first pass reports a duplicate label only when some label name is
   * declared twice in the stream, whatever data directives it holds.
   */
  lemma Pass1DuplicateMeansRepeat(syn: Syntax, ts: seq<string>)
    ensures var r := Pass1(syn, ts, map[], 0);
      r.Err? && r.error.DuplicateLabel? ==> !DistinctLabels(ts, |ts|)
  {
    Pass1DuplicateFrom(syn, ts, ts, map[], 0);
  }

  /**
   * The lone `:` of a spaced declaration is itself read as a label with the
   * empty name, so two spaced declarations clash: `a : b :` is refused as
   * the empty label declared twice.
   */
  lemma LoneColonIsLabel(syn: Syntax)
    ensures Pass1(syn, ["a", ":", "b", ":"], map[], 0) == Err(DuplicateLabel(""))
  {
    var ts := ["a", ":", "b", ":"];
    assert LabelName("a") == "a" && LabelName("b") == "b" && LabelName(":") == "";
    assert LabelAt(ts, 0);
    assert ts[1..] == [":", "b", ":"];
    assert LabelAt(ts[1..], 0);
    assert ts[1..][1..] == ["b", ":"];
    assert LabelAt(ts[1..][1..], 0);
    assert ts[1..][1..][1..] == [":"];
  }

  /** The first pass never moves a label already recorded. */
  lemma {:induction false} Pass1KeepsAddresses(syn: Syntax, ts: seq<string>, labels: map<string, int>, count: int, name: string)
    requires name in labels && Pass1(syn, ts, labels, count).Ok?
    ensures Pass1(syn, ts, labels, count).value.labels[name] == labels[name]
    decreases |ts|
  {
    if ts != [] {
      var tok, rest := ts[0], ts[1..];
      if LabelAt(ts, 0) {
        var added := labels[LabelName(tok) := count];
        assert added[name] == labels[name];
        Pass1KeepsAddresses(syn, rest, added, count, name);
      } else if tok == BytesKeyword {
        var after, next := Pass1AtDirective(syn, ts, labels, count);
        Pass1KeepsAddresses(syn, after, labels, next, name);
      } else if tok in syn.mnemonics {
        Pass1KeepsAddresses(syn, rest, labels, count + 2, name);
      } else {
        Pass1KeepsAddresses(syn, rest, labels, count, name);
      }
    }
  }
}
