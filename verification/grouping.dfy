/**
 * The `GroupIter` and `Group` iterators of src/raw.rs:17-88. A group is the
 * run of tokens from the current position up to the next label declaration
 * (a token holding `:`); the outer iterator then resumes just past that label.
 */
module Grouping {
  import opened Wrappers
  import opened Tokenizer

  /** A token that `Group::next` treats as a label: one holding a `:` anywhere (`str::find(":")`). */
  predicate HoldsColon(t: string) {
    ':' in t
  }

  /** A token that `GroupIter::next` treats as the end of a group (`ends_with(":")`). */
  predicate EndsWithColon(t: string) {
    |t| > 0 && t[|t| - 1] == ':'
  }

  /** The state of one `Group` iterator: whether its label was reached, and the tokens not yet read. */
  datatype Group = Group(done: bool, rest: seq<string>)

  /**
   * One call of `Group::next`. A plain token is produced as is. A label
   * token finishes the group: with `emitLabel` its text before the `:` is
   * produced when that text is non-empty, otherwise nothing is.
   */
  function GroupNext(g: Group, emitLabel: bool): (r: (Option<string>, Group))
    ensures g.done ==> r == (None, g)
    ensures r.1.done <==> g.done || (g.rest != [] && HoldsColon(g.rest[0]))
    ensures !g.done && g.rest != [] ==> r.1.rest == g.rest[1..]
    ensures r.0.Some? ==> !g.done && g.rest != []
    ensures r.0.Some? && !r.1.done ==> r.0.value == g.rest[0]
    ensures r.0.Some? && r.1.done ==> emitLabel && r.0.value != [] && r.0.value + [':'] <= g.rest[0]
    ensures !g.done && g.rest != [] && !HoldsColon(g.rest[0]) ==> r.0 == Some(g.rest[0])
    ensures !g.done && g.rest != [] && HoldsColon(g.rest[0]) ==>
      r.0 == (if emitLabel && LabelName(g.rest[0]) != [] then Some(LabelName(g.rest[0])) else None)
  {
    if g.done || g.rest == [] then
      (None, g)
    else
      var item := g.rest[0];
      var idx := FindFirst(item, Colon);
      FindFirstSpec(item, Colon);
      if idx < |item| then
        assert ':' in item;
        assert item[..idx] + [':'] == item[..idx + 1];
        LabelNameAt(item, idx);
        (if emitLabel && idx > 0 then Some(item[..idx]) else None, Group(true, g.rest[1..]))
      else
        assert ':' !in item by {
          forall k | 0 <= k < |item| ensures item[k] != ':' { assert !IsColon(item[k]); }
        }
        (Some(item), Group(false, g.rest[1..]))
  }

  /** Everything a `for` loop over the group receives: the items produced up to the first `None`. */
  function Items(g: Group, emitLabel: bool): seq<string>
    decreases |g.rest|
  {
    var (item, next) := GroupNext(g, emitLabel);
    match item
    case None => []
    case Some(x) => [x] + Items(next, emitLabel)
  }

  /** The index of the first token holding a `:`, or the length of `ts` when there is none. */
  function LabelIndex(ts: seq<string>): (k: nat)
    ensures k <= |ts|
    ensures forall j :: 0 <= j < k ==> !HoldsColon(ts[j])
    ensures k < |ts| ==> HoldsColon(ts[k])
  {
    if ts == [] then 0 else if HoldsColon(ts[0]) then 0 else 1 + LabelIndex(ts[1..])
  }

  /** The text before the first `:` of a token is its label name. */
  lemma LabelNameAt(t: string, idx: nat)
    requires idx == FindFirst(t, Colon) < |t|
    ensures LabelName(t) == t[..idx]
  {
  }

  /** The text of a label token before its first `:`, or the whole token when it holds none. */
  function LabelName(t: string): (name: string)
    ensures name <= t && ':' !in name
    ensures ':' in t ==> name + [':'] <= t
    ensures ':' !in t ==> name == t
  {
    var idx := FindFirst(t, Colon);
    FindFirstSpec(t, Colon);
    assert ':' !in t[..idx] by {
      forall k | 0 <= k < idx ensures t[..idx][k] != ':' { assert !IsColon(t[k]); }
    }
    if idx < |t| then
      assert t[..idx] + [':'] == t[..idx + 1];
      t[..idx]
    else
      assert ':' !in t by {
        forall k | 0 <= k < |t| ensures t[k] != ':' { assert !IsColon(t[k]); }
      }
      t[..idx]
  }

  /** Drop tokens up to and including the first one ending in `:` (the skip loop of `GroupIter::next`). */
  function SkipGroup(ts: seq<string>): (r: seq<string>)
    ensures |r| <= |ts| && (|r| < |ts| || ts == [])
    ensures r == ts[|ts| - |r|..]
  {
    if ts == [] then []
    else if EndsWithColon(ts[0]) then ts[1..]
    else
      var r := SkipGroup(ts[1..]);
      assert ts[1..][|ts[1..]| - |r|..] == ts[|ts| - |r|..];
      r
  }

  /**
   * One call of `GroupIter::next`: a fresh group over the remaining tokens,
   * and the tokens left once that group's label is passed. It yields nothing
   * exactly when no tokens remain.
   */
  function GroupIterNext(ts: seq<string>): (r: (Option<Group>, seq<string>))
    ensures r.0.None? <==> ts == []
    ensures r.0.Some? ==> r.0.value == Group(false, ts) && |r.1| < |ts|
  {
    if ts == [] then (None, ts) else (Some(Group(false, ts)), SkipGroup(ts))
  }

  /** All the groups `GroupIter` yields over `ts`. */
  function Groups(ts: seq<string>): seq<Group>
    decreases |ts|
  {
    var (g, rest) := GroupIterNext(ts);
    match g
    case None => []
    case Some(group) => [group] + Groups(rest)
  }

  /** The tokens of `ts` that are not label declarations, in order. */
  function NonLabels(ts: seq<string>): seq<string> {
    if ts == [] then []
    else (if HoldsColon(ts[0]) then [] else [ts[0]]) + NonLabels(ts[1..])
  }

  /** The contents of every group, as the second pass sees them (labels not emitted). */
  function GroupContents(gs: seq<Group>): seq<string> {
    if gs == [] then [] else Items(gs[0], false) + GroupContents(gs[1..])
  }

  // ---------------------------------------------------------------------------
  // Properties
  // ---------------------------------------------------------------------------

  /** A finished group stays finished: it produces nothing, however often it is asked. */
  lemma {:induction false} FinishedStaysFinished(g: Group, emitLabel: bool, n: nat)
    requires g.done
    ensures Iterate(g, emitLabel, n) == g
    ensures GroupNext(Iterate(g, emitLabel, n), emitLabel).0 == None
  {
    if n > 0 {
      FinishedStaysFinished(g, emitLabel, n - 1);
    }
  }

  /** The group state after `n` calls of `Group::next`. */
  function Iterate(g: Group, emitLabel: bool, n: nat): Group {
    if n == 0 then g else GroupNext(Iterate(g, emitLabel, n - 1), emitLabel).1
  }

  /**
   * A fresh group produces exactly the tokens before the first label token,
   * in order, and then, when asked to, the label's name if it is non-empty.
   */
  lemma {:induction false} GroupItems(ts: seq<string>, emitLabel: bool)
    ensures var k := LabelIndex(ts);
      Items(Group(false, ts), emitLabel)
      == ts[..k] + (if emitLabel && k < |ts| && LabelName(ts[k]) != [] then [LabelName(ts[k])] else [])
  {
    if ts != [] {
      var k := LabelIndex(ts);
      if HoldsColon(ts[0]) {
        assert ts[..0] == [];
      } else {
        GroupItems(ts[1..], emitLabel);
        assert ts[..k] == [ts[0]] + ts[1..][..k - 1];
      }
    }
  }

  lemma {:induction false} NonLabelsAppend(a: seq<string>, b: seq<string>)
    ensures NonLabels(a + b) == NonLabels(a) + NonLabels(b)
  {
    if a == [] {
      assert a + b == b;
    } else {
      assert (a + b)[1..] == a[1..] + b;
      NonLabelsAppend(a[1..], b);
    }
  }

  lemma {:induction false} NonLabelsPlain(ts: seq<string>)
    requires forall j :: 0 <= j < |ts| ==> !HoldsColon(ts[j])
    ensures NonLabels(ts) == ts
  {
    if ts != [] {
      NonLabelsPlain(ts[1..]);
    }
  }

  /** When a `:` can only end a token, the skip loop stops exactly at the group's label. */
  lemma {:induction false} SkipGroupAtLabel(ts: seq<string>)
    requires forall j :: 0 <= j < |ts| ==> ColonOnlyAtEnd(ts[j])
    ensures var k := LabelIndex(ts);
      SkipGroup(ts) == if k < |ts| then ts[k + 1..] else []
  {
    if ts != [] {
      assert ColonOnlyAtEnd(ts[0]);
      assert HoldsColon(ts[0]) <==> EndsWithColon(ts[0]) by {
        if HoldsColon(ts[0]) {
          var j :| 0 <= j < |ts[0]| && ts[0][j] == ':';
        }
      }
      if !HoldsColon(ts[0]) {
        SkipGroupAtLabel(ts[1..]);
      }
    }
  }

  lemma {:induction false} GroupContentsCons(ts: seq<string>)
    requires ts != []
    ensures GroupContents(Groups(ts)) == Items(Group(false, ts), false) + GroupContents(Groups(SkipGroup(ts)))
  {
    assert Groups(ts) == [Group(false, ts)] + Groups(SkipGroup(ts));
  }

  /** The non-label tokens around the first label. */
  lemma {:induction false} NonLabelsAround(ts: seq<string>)
    ensures var k := LabelIndex(ts);
      NonLabels(ts) == ts[..k] + (if k < |ts| then NonLabels(ts[k + 1..]) else [])
  {
    var k := LabelIndex(ts);
    NonLabelsPlain(ts[..k]);
    if k < |ts| {
      var pre, mark, post := ts[..k], [ts[k]], ts[k + 1..];
      assert ts == pre + mark + post;
      NonLabelsAppend(pre + mark, post);
      NonLabelsAppend(pre, mark);
      assert NonLabels(mark) == [] by { assert mark[1..] == []; }
    } else {
      assert ts[..k] == ts;
    }
  }

  /** One group's worth of the partition: the first group, then the groups after its label. */
  lemma {:induction false} PartitionStep(ts: seq<string>)
    requires ts != []
    requires forall j :: 0 <= j < |ts| ==> ColonOnlyAtEnd(ts[j])
    requires GroupContents(Groups(SkipGroup(ts))) == NonLabels(SkipGroup(ts))
    ensures GroupContents(Groups(ts)) == NonLabels(ts)
  {
    var rest := SkipGroup(ts);
    var k := LabelIndex(ts);
    GroupContentsCons(ts);
    GroupItems(ts, false);
    assert Items(Group(false, ts), false) == ts[..k];
    SkipGroupAtLabel(ts);
    NonLabelsAround(ts);
    if k < |ts| {
      assert rest == ts[k + 1..];
    } else {
      assert rest == [];
      assert GroupContents(Groups(rest)) == [];
    }
  }

  /**
   * On a tokenizer's stream (a `:` only ever ends a token) the groups,
   * labels left out, hold exactly the non-label tokens in order: nothing is
   * lost, repeated or reordered.
   */
  lemma {:induction false} GroupsPartitionTokens(ts: seq<string>)
    requires forall j :: 0 <= j < |ts| ==> ColonOnlyAtEnd(ts[j])
    ensures GroupContents(Groups(ts)) == NonLabels(ts)
    decreases |ts|
  {
    if ts != [] {
      var rest := SkipGroup(ts);
      assert forall j :: 0 <= j < |rest| ==> ColonOnlyAtEnd(rest[j]) by {
        forall j | 0 <= j < |rest| ensures ColonOnlyAtEnd(rest[j]) {
          assert rest[j] == ts[|ts| - |rest| + j];
        }
      }
      GroupsPartitionTokens(rest);
      PartitionStep(ts);
    }
  }

  /** Every token stream `Tokenize` produces is grouped without loss. */
  lemma TokenStreamGroups(chunks: seq<string>)
    ensures GroupContents(Groups(Tokenize(chunks))) == NonLabels(Tokenize(chunks))
  {
    var ts := Tokenize(chunks);
    TokensWellFormed(chunks);
    assert forall j :: 0 <= j < |ts| ==> ColonOnlyAtEnd(ts[j]) by {
      forall j | 0 <= j < |ts| ensures ColonOnlyAtEnd(ts[j]) {
        assert ts[j] in ts;
      }
    }
    GroupsPartitionTokens(ts);
  }
}
