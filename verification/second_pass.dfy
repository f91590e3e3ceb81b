/**
 * The second pass of `Raw::assemble` (src/raw.rs:308-401): every group of
 * tokens between label declarations is assembled in turn, trying a `.bytes`
 * directive first and an instruction second at each position, with symbols
 * resolved against the label addresses of the first pass.
 */
module SecondPass {
  import opened Wrappers
  import opened Tokenizer
  import opened Grouping
  import opened Cursor
  import opened LittleEndian
  import opened Directive
  import opened Isa
  import opened FirstPass

  /** The labels a request names. */
  function Names(req: Request): set<string> {
    match req
    case Address(s) => {s}
    case DistanceCurrent(s) => {s}
    case Distance(a, b) => {a, b}
  }

  /**
   * The resolver of the second pass (src/raw.rs:320-347): an address, the
   * distance from the current byte count to a label, or the distance between
   * two labels. It fails exactly when a named label is unknown, and then
   * reports one; of two unknown labels it reports the second.
   */
  function Resolve(labels: map<string, int>, count: int, req: Request): (r: Result<int, string>)
    ensures r.Ok? <==> Names(req) <= labels.Keys
    ensures r.Err? ==> r.error in Names(req) && r.error !in labels
    ensures r.Err? && req.Distance? && req.to !in labels ==> r.error == req.to
  {
    match req
    case Address(s) => if s in labels then Ok(labels[s]) else Err(s)
    case DistanceCurrent(s) => if s in labels then Ok(labels[s] - count) else Err(s)
    case Distance(a, b) =>
      if b !in labels then Err(b)
      else if a !in labels then Err(a)
      else Ok(labels[b] - labels[a])
  }

  /** The resolver as the parsers receive it, fixed to the labels and the current byte count. */
  function ResolverAt(labels: map<string, int>, count: int): Resolver {
    (req: Request) => Resolve(labels, count, req)
  }

  /**
   * One iteration of the loop over a group, as written (src/raw.rs:351-399):
   * the bytes to emit and how much of the view they used, nothing when the
   * group is finished, or an error. A directive is tried first and, when it
   * fails for any reason, an instruction; an instruction that names an
   * unknown label or breaks a bound is an error, any other failure finishes
   * the group.
   */
  function Attempt(syn: Syntax, labels: map<string, int>, view: seq<string>, count: int)
    : (r: Result<Option<Emission>, AsmError>)
    ensures r.Err? ==> r.error.UnknownLabel? || r.error.InvalidValue?
  {
    var f := ResolverAt(labels, count);
    match ParseBytesDirective(syn.directive, view, f)
    case Ok(e) => Ok(Some(e))
    case Err(_) =>
      match syn.instruction(view, f)
      case Parsed(w, c) => Ok(Some(Emission(Encode(w, 2), c)))
      case NoMatch => Ok(None)
      case UnknownSymbol(fragment) => Err(UnknownLabel(fragment))
      case OutOfBound(v, lo, hi) => Err(InvalidValue(v, lo, hi))
  }

  /**
   * One iteration of the loop, with `strict` also reporting every failure of
   * a recognised directive: such a failure becomes an error, and otherwise
   * the iteration is the one as written.
   */
  function Step(syn: Syntax, labels: map<string, int>, view: seq<string>, count: int, strict: bool)
    : (r: Result<Option<Emission>, AsmError>)
    ensures !strict || !(r.Err? && r.error.DirectiveFailed?) ==> r == Attempt(syn, labels, view, count)
    ensures r.Err? ==> r.error.UnknownLabel? || r.error.InvalidValue? || (strict && r.error.DirectiveFailed?)
    ensures r.Err? && r.error.DirectiveFailed? ==> !r.error.cause.NotDirective?
  {
    var dir := ParseBytesDirective(syn.directive, view, ResolverAt(labels, count));
    if strict && dir.Err? && !dir.error.NotDirective? then Err(DirectiveFailed(dir.error))
    else Attempt(syn, labels, view, count)
  }

  /** An instruction word is written as two little-endian bytes that read back as the word. */
  lemma InstructionBytes(w: Word)
    ensures |Encode(w, 2)| == 2 && Decode(Encode(w, 2)) == w
  {
    DecodeEncode(w, 2);
    Pow2Add(8, 8);
    assert Pow2(8) == 256;
    DivModUnique(w, 65536, 0, w);
  }

  /**
   * Each iteration tries a directive before an instruction: a directive that
   * parses is emitted whatever else the view could be read as, and an
   * instruction is emitted only when no directive parses, as its word in two
   * little-endian bytes.
   */
  lemma AttemptOrder(syn: Syntax, labels: map<string, int>, view: seq<string>, count: int)
    ensures var r := Attempt(syn, labels, view, count);
      var dir := ParseBytesDirective(syn.directive, view, ResolverAt(labels, count));
      var instr := syn.instruction(view, ResolverAt(labels, count));
      && (dir.Ok? ==> r == Ok(Some(dir.value)))
      && (dir.Err? && instr.Parsed? ==>
            r.Ok? && r.value.Some? && |r.value.value.bytes| == 2 && Decode(r.value.value.bytes) == instr.word
            && r.value.value.consumed == instr.consumed)
      && (dir.Err? && instr.NoMatch? ==> r == Ok(None))
      && (dir.Err? && instr.UnknownSymbol? ==> r == Err(UnknownLabel(instr.fragment)))
      && (dir.Err? && instr.OutOfBound? ==> r == Err(InvalidValue(instr.value, instr.min, instr.max)))
  {
    var instr := syn.instruction(view, ResolverAt(labels, count));
    if instr.Parsed? {
      InstructionBytes(instr.word);
    }
  }

  /** One iteration of the loop over a group, as a function of the view and the byte count. */
  type Iteration = (seq<string>, int) -> Result<Option<Emission>, AsmError>

  /**
   * The loop over one group (src/raw.rs:351-399): iterate until the group is
   * finished or an error occurs, the byte count growing by exactly the bytes
   * emitted. An iteration that would leave the view as it is ends the group
   * after emitting once.
   */
  function Loop(step: Iteration, view: seq<string>, count: int): Result<seq<Byte>, AsmError>
    decreases Size(view)
  {
    match step(view, count)
    case Err(e) => Err(e)
    case Ok(None) => Ok([])
    case Ok(Some(e)) =>
      var next := Advance(view, e.consumed);
      if Size(next) < Size(view) then
        match Loop(step, next, count + |e.bytes|)
        case Ok(more) => Ok(e.bytes + more)
        case Err(err) => Err(err)
      else
        Ok(e.bytes)
  }

  /** The assembly of one group, as a function of its tokens and its starting byte count. */
  type GroupRun = (seq<string>, int) -> Result<seq<Byte>, AsmError>

  /** The loop over the groups (src/raw.rs:349-350): each group from where the previous one ended. */
  function Groupwise(run: GroupRun, gs: seq<Group>, count: int): Result<seq<Byte>, AsmError> {
    if gs == [] then Ok([])
    else
      match run(Items(gs[0], false), count)
      case Err(e) => Err(e)
      case Ok(bytes) =>
        match Groupwise(run, gs[1..], count + |bytes|)
        case Err(e) => Err(e)
        case Ok(more) => Ok(bytes + more)
  }

  function StepAt(syn: Syntax, labels: map<string, int>, strict: bool): Iteration {
    (view: seq<string>, count: int) => Step(syn, labels, view, count, strict)
  }

  function RunGroup(syn: Syntax, labels: map<string, int>, view: seq<string>, count: int, strict: bool)
    : Result<seq<Byte>, AsmError>
  {
    Loop(StepAt(syn, labels, strict), view, count)
  }

  /** The loop over one group, as a group run. */
  function LoopRun(step: Iteration): GroupRun {
    (view: seq<string>, count: int) => Loop(step, view, count)
  }

  function RunGroupAt(syn: Syntax, labels: map<string, int>, strict: bool): GroupRun {
    LoopRun(StepAt(syn, labels, strict))
  }

  /** The second pass over a stream's groups, from byte count 0. */
  function Pass2(syn: Syntax, labels: map<string, int>, ts: seq<string>, strict: bool): Result<seq<Byte>, AsmError> {
    Groupwise(RunGroupAt(syn, labels, strict), Groups(ts), 0)
  }

  /**
   * Both passes over a token stream, corrected: the second pass also reports
   * every failing recognised directive. A duplicate-label error means that
   * some label really is declared twice, and unless a directive failure is
   * reported the result is the one of the assembler as written, bytes or
   * error alike.
   */
  function AssembleTokens(syn: Syntax, ts: seq<string>): (r: Result<seq<Byte>, AsmError>)
    ensures !DirectiveFailure(r) ==> r == AssembleTokensAsWritten(syn, ts)
    ensures r.Err? && r.error.DuplicateLabel? ==> !DistinctLabels(ts, |ts|)
  {
    Pass1DuplicateMeansRepeat(syn, ts);
    match Pass1(syn, ts, map[], 0)
    case Err(e) => Err(e)
    case Ok(layout) =>
      var out := Pass2(syn, layout.labels, ts, true);
      Pass2Errors(syn, layout.labels, ts, true);
      if DirectiveFailure(out) then out
      else
        StrictRunAgrees(syn, layout.labels);
        GroupwiseAgree(RunGroupAt(syn, layout.labels, true), RunGroupAt(syn, layout.labels, false), Groups(ts), 0);
        out
  }

  /**
   * Both passes over a token stream, exactly as written: the second pass
   * passes over failing directives, so a directive failure can only be the
   * first pass's, and a duplicate-label error means that some label really
   * is declared twice.
   */
  function AssembleTokensAsWritten(syn: Syntax, ts: seq<string>): (r: Result<seq<Byte>, AsmError>)
    ensures DirectiveFailure(r) ==> Pass1(syn, ts, map[], 0) == Err(r.error)
    ensures r.Err? && r.error.DuplicateLabel? ==> !DistinctLabels(ts, |ts|)
  {
    Pass1DuplicateMeansRepeat(syn, ts);
    match Pass1(syn, ts, map[], 0)
    case Err(e) => Err(e)
    case Ok(layout) =>
      Pass2Errors(syn, layout.labels, ts, false);
      Pass2(syn, layout.labels, ts, false)
  }

  /**
   * `Raw::assemble`, corrected: tokenize the source chunks, then assemble the
   * tokens with every failing directive reported. Unless it reports such a
   * failure it agrees with `AssembleAsWritten`.
   */
  function Assemble(syn: Syntax, chunks: seq<string>): (r: Result<seq<Byte>, AsmError>)
    ensures !DirectiveFailure(r) ==> r == AssembleAsWritten(syn, chunks)
    ensures r.Err? && r.error.DuplicateLabel? ==> !DistinctLabels(Tokenize(chunks), |Tokenize(chunks)|)
  {
    AssembleTokens(syn, Tokenize(chunks))
  }

  /** `Raw::assemble` with its second pass as written: directive failures there pass unreported. */
  function AssembleAsWritten(syn: Syntax, chunks: seq<string>): (r: Result<seq<Byte>, AsmError>)
    ensures DirectiveFailure(r) ==> Pass1(syn, Tokenize(chunks), map[], 0) == Err(r.error)
  {
    AssembleTokensAsWritten(syn, Tokenize(chunks))
  }

  // ---------------------------------------------------------------------------
  // Properties
  // ---------------------------------------------------------------------------

  /**
   * The three requests agree with one another: the distance between two
   * labels is the difference of their addresses, it changes sign when the
   * labels are swapped, and the distance to a label from the current
   * position is its address less the current byte count.
   */
  lemma ResolveAgrees(labels: map<string, int>, count: int, a: string, b: string)
    requires a in labels && b in labels
    ensures Resolve(labels, count, Distance(a, b)).value
      == Resolve(labels, count, Address(b)).value - Resolve(labels, count, Address(a)).value
    ensures Resolve(labels, count, Distance(a, b)).value == -Resolve(labels, count, Distance(b, a)).value
    ensures Resolve(labels, count, DistanceCurrent(b)).value == Resolve(labels, count, Address(b)).value - count
    ensures Resolve(labels, count, Distance(a, a)) == Ok(0)
  {
  }

  /**
   * The distance from the current position to a label is the distance from a
   * label declared at the current position, whatever that label is called.
   */
  lemma DistanceCurrentIsDistanceFromHere(labels: map<string, int>, count: int, here: string, s: string)
    requires s in labels && here !in labels
    ensures Resolve(labels, count, DistanceCurrent(s)) == Resolve(labels[here := count], count, Distance(here, s))
  {
    assert s != here;
  }

  /** A result that is a reported directive failure. */
  predicate DirectiveFailure<T>(r: Result<T, AsmError>) {
    r.Err? && r.error.DirectiveFailed?
  }

  /**
   * The errors the second pass raises: an unknown label or an out-of-bound
   * value, and with `strict` also a failing directive. A duplicate label is
   * never one of them.
   */
  predicate Pass2Error<T>(r: Result<T, AsmError>, strict: bool) {
    r.Err? ==> r.error.UnknownLabel? || r.error.InvalidValue? || (strict && r.error.DirectiveFailed?)
  }

  ghost predicate StepErrors(step: Iteration, strict: bool) {
    forall view, count :: Pass2Error(step(view, count), strict)
  }

  /** A group loop raises only errors its iterations raise. */
  lemma {:induction false} LoopErrors(step: Iteration, view: seq<string>, count: int, strict: bool)
    requires StepErrors(step, strict)
    ensures Pass2Error(Loop(step, view, count), strict)
    decreases Size(view)
  {
    var r := step(view, count);
    assert Pass2Error(r, strict);
    if r.Ok? && r.value.Some? {
      var e := r.value.value;
      var next := Advance(view, e.consumed);
      if Size(next) < Size(view) {
        LoopErrors(step, next, count + |e.bytes|, strict);
      }
    }
  }

  ghost predicate RunErrors(run: GroupRun, strict: bool) {
    forall view, count :: Pass2Error(run(view, count), strict)
  }

  /** The loop over the groups raises only errors a group raises. */
  lemma {:induction false} GroupwiseErrors(run: GroupRun, gs: seq<Group>, count: int, strict: bool)
    requires RunErrors(run, strict)
    ensures Pass2Error(Groupwise(run, gs, count), strict)
  {
    if gs != [] {
      var g := run(Items(gs[0], false), count);
      assert Pass2Error(g, strict);
      if g.Ok? {
        GroupwiseErrors(run, gs[1..], count + |g.value|, strict);
      }
    }
  }

  /**
   * The second pass fails only on an unknown label or an out-of-bound
   * value, or, corrected, on a failing directive: never on a label.
   */
  lemma Pass2Errors(syn: Syntax, labels: map<string, int>, ts: seq<string>, strict: bool)
    ensures Pass2Error(Pass2(syn, labels, ts, strict), strict)
  {
    forall view, count ensures Pass2Error(Step(syn, labels, view, count, strict), strict) {
    }
    assert StepErrors(StepAt(syn, labels, strict), strict);
    forall view, count ensures Pass2Error(RunGroupAt(syn, labels, strict)(view, count), strict) {
      LoopErrors(StepAt(syn, labels, strict), view, count, strict);
    }
    assert RunErrors(RunGroupAt(syn, labels, strict), strict);
    GroupwiseErrors(RunGroupAt(syn, labels, strict), Groups(ts), 0, strict);
  }

  // ---------------------------------------------------------------------------
  // The loops as the source writes them: one output and one byte count
  // ---------------------------------------------------------------------------

  /** `r` with the bytes `p` in front of its own, when it succeeds. */
  function Prefixed(p: seq<Byte>, r: Result<seq<Byte>, AsmError>): Result<seq<Byte>, AsmError> {
    match r
    case Ok(more) => Ok(p + more)
    case Err(e) => Err(e)
  }

  /**
   * The loop over one group as src/raw.rs:318-399 writes it: the output and
   * the byte count are kept side by side; each iteration runs at the count
   * reached so far, appends what it emits to the output, adds its length to
   * the count and moves the view on. It computes `Loop`, and on success the
   * count has grown by exactly the bytes emitted.
   */
  method RunLoop(step: Iteration, view: seq<string>, count: int)
    returns (r: Result<seq<Byte>, AsmError>, byteCount: int)
    ensures r == Loop(step, view, count)
    ensures r.Ok? ==> byteCount == count + |r.value|
  {
    var output: seq<Byte> := [];
    var v := view;
    byteCount := count;
    PrefixedNothing(Loop(step, view, count));
    while true
      invariant byteCount == count + |output|
      invariant Loop(step, view, count) == Prefixed(output, Loop(step, v, byteCount))
      decreases Size(v)
    {
      var attempt := step(v, byteCount);
      if attempt.Err? {
        return Err(attempt.error), byteCount;
      }
      if attempt.value.None? {
        assert output + [] == output;
        return Ok(output), byteCount;
      }
      var e := attempt.value.value;
      var next := Advance(v, e.consumed);
      if Size(next) >= Size(v) {
        return Ok(output + e.bytes), byteCount + |e.bytes|;
      }
      PrefixedTwice(output, e.bytes, Loop(step, next, byteCount + |e.bytes|));
      output := output + e.bytes;
      byteCount := byteCount + |e.bytes|;
      v := next;
    }
  }

  lemma PrefixedNothing(r: Result<seq<Byte>, AsmError>)
    ensures Prefixed([], r) == r
  {
    if r.Ok? {
      assert [] + r.value == r.value;
    }
  }

  lemma PrefixedTwice(a: seq<Byte>, b: seq<Byte>, r: Result<seq<Byte>, AsmError>)
    ensures Prefixed(a, Prefixed(b, r)) == Prefixed(a + b, r)
  {
    if r.Ok? {
      assert a + (b + r.value) == (a + b) + r.value;
    }
  }

  /**
   * The loop over the groups as src/raw.rs:314-400 writes it: one output and
   * one byte count for all of them, each group's loop starting at the count
   * the groups before it reached. It computes `Groupwise` over the group
   * loops of `step`, and on success the count has grown by exactly the bytes
   * emitted.
   */
  method RunGroups(step: Iteration, gs: seq<Group>, count: int)
    returns (r: Result<seq<Byte>, AsmError>, byteCount: int)
    ensures r == Groupwise(LoopRun(step), gs, count)
    ensures r.Ok? ==> byteCount == count + |r.value|
  {
    var output: seq<Byte> := [];
    byteCount := count;
    assert gs[0..] == gs;
    PrefixedNothing(Groupwise(LoopRun(step), gs, count));
    for i := 0 to |gs|
      invariant byteCount == count + |output|
      invariant Groupwise(LoopRun(step), gs, count) == Prefixed(output, Groupwise(LoopRun(step), gs[i..], byteCount))
    {
      var g, after := RunLoop(step, Items(gs[i], false), byteCount);
      GroupwiseAccumulate(LoopRun(step), gs, count, i, output, byteCount, g);
      if g.Err? {
        return g, byteCount;
      }
      output := output + g.value;
      byteCount := after;
    }
    assert output + [] == output;
    return Ok(output), byteCount;
  }

  /** One group of the loop over the groups: its bytes join the output, or its error ends the loop. */
  lemma GroupwiseAccumulate(run: GroupRun, gs: seq<Group>, count: int, i: nat, output: seq<Byte>, byteCount: int,
                            g: Result<seq<Byte>, AsmError>)
    requires i < |gs| && g == run(Items(gs[i], false), byteCount)
    requires Groupwise(run, gs, count) == Prefixed(output, Groupwise(run, gs[i..], byteCount))
    ensures g.Err? ==> Groupwise(run, gs, count) == Err(g.error)
    ensures g.Ok? ==> Groupwise(run, gs, count) == Prefixed(output + g.value, Groupwise(run, gs[i + 1..], byteCount + |g.value|))
  {
    var rest := gs[i..];
    assert rest[0] == gs[i] && rest[1..] == gs[i + 1..];
    GroupwiseStep(run, rest, byteCount);
    if g.Ok? {
      PrefixedTwice(output, g.value, Groupwise(run, gs[i + 1..], byteCount + |g.value|));
    }
  }

  /** One group of the loop over the groups: its bytes, then those of the groups after it. */
  lemma GroupwiseStep(run: GroupRun, gs: seq<Group>, count: int)
    requires gs != []
    ensures var g := run(Items(gs[0], false), count);
      Groupwise(run, gs, count) == if g.Err? then Err(g.error) else Prefixed(g.value, Groupwise(run, gs[1..], count + |g.value|))
  {
  }

  /**
   * The second pass as src/raw.rs:308-401 writes it, from byte count 0: it
   * computes `Pass2`, and on success the final count is exactly the number
   * of bytes emitted.
   */
  method RunPass2(syn: Syntax, labels: map<string, int>, ts: seq<string>, strict: bool)
    returns (r: Result<seq<Byte>, AsmError>, byteCount: int)
    ensures r == Pass2(syn, labels, ts, strict)
    ensures r.Ok? ==> byteCount == |r.value|
  {
    r, byteCount := RunGroups(StepAt(syn, labels, strict), Groups(ts), 0);
  }

  /** `s2` agrees with `s1` on every input where `s1` does not report a directive failure. */
  ghost predicate StepsAgree(s1: Iteration, s2: Iteration) {
    forall view, count :: !DirectiveFailure(s1(view, count)) ==> s2(view, count) == s1(view, count)
  }

  /** Loops whose iterations agree except on directive failures agree except on directive failures. */
  lemma {:induction false} LoopsAgree(s1: Iteration, s2: Iteration, view: seq<string>, count: int)
    requires StepsAgree(s1, s2)
    requires !DirectiveFailure(Loop(s1, view, count))
    ensures Loop(s2, view, count) == Loop(s1, view, count)
    decreases Size(view)
  {
    var r := s1(view, count);
    assert s2(view, count) == r;
    if r.Ok? && r.value.Some? {
      var e := r.value.value;
      var next := Advance(view, e.consumed);
      if Size(next) < Size(view) {
        LoopsAgree(s1, s2, next, count + |e.bytes|);
      }
    }
  }

  ghost predicate RunsAgree(r1: GroupRun, r2: GroupRun) {
    forall view, count :: !DirectiveFailure(r1(view, count)) ==> r2(view, count) == r1(view, count)
  }

  lemma {:induction false} GroupwiseAgree(r1: GroupRun, r2: GroupRun, gs: seq<Group>, count: int)
    requires RunsAgree(r1, r2)
    requires !DirectiveFailure(Groupwise(r1, gs, count))
    ensures Groupwise(r2, gs, count) == Groupwise(r1, gs, count)
  {
    if gs != [] {
      var g := r1(Items(gs[0], false), count);
      assert r2(Items(gs[0], false), count) == g;
      if g.Ok? {
        GroupwiseAgree(r1, r2, gs[1..], count + |g.value|);
      }
    }
  }

  /** The corrected iteration differs from the one as written only where it reports a directive failure. */
  lemma StrictStepAgrees(syn: Syntax, labels: map<string, int>)
    ensures StepsAgree(StepAt(syn, labels, true), StepAt(syn, labels, false))
  {
    forall view, count ensures !DirectiveFailure(Step(syn, labels, view, count, true)) ==>
      Step(syn, labels, view, count, false) == Step(syn, labels, view, count, true)
    {
    }
  }

  lemma StrictRunAgrees(syn: Syntax, labels: map<string, int>)
    ensures RunsAgree(RunGroupAt(syn, labels, true), RunGroupAt(syn, labels, false))
  {
    StrictStepAgrees(syn, labels);
    var strict, lax := RunGroupAt(syn, labels, true), RunGroupAt(syn, labels, false);
    forall view, count | !DirectiveFailure(strict(view, count))
      ensures lax(view, count) == strict(view, count)
    {
      LoopsAgree(StepAt(syn, labels, true), StepAt(syn, labels, false), view, count);
    }
  }

  /**
   * The corrected loop reports every failure of a recognised directive:
   * when the header of a `.bytes` directive is read but its value cannot be
   * read or breaks a bound, the group fails with that directive error.
   */
  lemma DirectiveErrorReported(syn: Syntax, labels: map<string, int>, view: seq<string>, count: int)
    requires ParseBytesDirective(syn.directive, view, ResolverAt(labels, count)).Err?
    requires !ParseBytesDirective(syn.directive, view, ResolverAt(labels, count)).error.NotDirective?
    ensures RunGroup(syn, labels, view, count, true)
      == Err(DirectiveFailed(ParseBytesDirective(syn.directive, view, ResolverAt(labels, count)).error))
  {
  }

  /**
   * `.bytes u1, a=>b` with `b` placed 8 bytes after `a` emits the distance
   * as the two bytes 8, 0, consuming the header and then the symbols.
   */
  lemma DistanceOfEightAsU1(g: Grammar, view: seq<string>, labels: map<string, int>, count: int,
                            a: string, b: string, c1: Consumed, c2: Consumed)
    requires a in labels && b in labels && labels[b] == labels[a] + 8
    requires g.header(view) == Some((ByteType(false, 1), c1))
    requires g.symbolic(Advance(view, c1)) == Some((Symbolic(a, Some(b)), c2))
    ensures ParseBytesDirective(g, view, ResolverAt(labels, count)) == Ok(Emission([8, 0], Then(c1, c2)))
  {
    var f := ResolverAt(labels, count);
    assert f(Distance(a, b)) == Ok(8);
    SymbolBeforeLiteral(g, Advance(view, c1), false, f);
    SmallAsU128(8);
    assert Width(ByteType(false, 1)) == 2;
    assert Pow2(16) == 65536;
    assert Encode(8, 2) == [8, 0];
  }

  /**
   * With the labels the other way round, `.bytes u1, b=>a` gives the
   * distance -8, which `as u128` turns into `2^128 - 8`: it is refused as
   * out of bounds rather than emitted as a negative word.
   */
  lemma DistanceBackwardsRefused(g: Grammar, view: seq<string>, labels: map<string, int>, count: int,
                                 a: string, b: string, c1: Consumed, c2: Consumed)
    requires a in labels && b in labels && labels[b] == labels[a] + 8
    requires g.header(view) == Some((ByteType(false, 1), c1))
    requires g.symbolic(Advance(view, c1)) == Some((Symbolic(b, Some(a)), c2))
    ensures ParseBytesDirective(g, view, ResolverAt(labels, count)) == Err(OutOfBounds(Pow2(128) - 8, 0, 65536))
  {
    var f := ResolverAt(labels, count);
    assert f(Distance(b, a)) == Ok(-8);
    SymbolBeforeLiteral(g, Advance(view, c1), false, f);
    Pow2AtLeast(128);
    DivModUnique(-8, Pow2(128), -1, Pow2(128) - 8);
    Pow2Less(17, 128);
    assert Width(ByteType(false, 1)) == 2;
    assert Pow2(16) == 65536;
    assert Pow2(17) == 2 * Pow2(16);
    assert !InBounds(ByteType(false, 1), Pow2(128) - 8);
  }

  /**
   * Whitespace outside comments only separates tokens: a whitespace
   * character assembles exactly as a boundary between source chunks.
   */
  lemma AssembleIgnoresWhitespace(syn: Syntax, a: string, w: char, b: string)
    requires ';' !in a && IsWhitespace(w)
    ensures Assemble(syn, [a + [w] + b]) == Assemble(syn, [a, b])
  {
    IgnoredWhitespace(a, w, b);
  }

  /**
   * A comment, up to and including its line end, only separates tokens:
   * `a ; c <newline> b` assembles exactly as the chunks `a` and `b`.
   */
  lemma AssembleIgnoresComment(syn: Syntax, a: string, c: string, nl: char, b: string)
    requires ';' !in a && NoLineEnd(c) && IsLineEnd(nl)
    ensures Assemble(syn, [a + [';'] + c + [nl] + b]) == Assemble(syn, [a, b])
  {
    IgnoredComment(a, c, nl, b);
  }

  // ---------------------------------------------------------------------------
  // A small instruction set, for concrete cases
  // ---------------------------------------------------------------------------

  /** `.bytes u0,` is the only directive header; a value is a symbol or nothing. */
  function ToyHeader(view: seq<string>): Option<(ByteType, Consumed)> {
    if |view| >= 2 && view[0] == BytesKeyword && view[1] == "u0," then Some((ByteType(false, 0), Consumed(2, 0)))
    else None
  }

  function ToySymbolic(view: seq<string>): Option<(Symbolic, Consumed)> {
    if view != [] then Some((Symbolic(view[0], None), Consumed(1, 0))) else None
  }

  function NoSigned(view: seq<string>): Option<(I128, Consumed)> {
    None
  }

  function NoUnsigned(view: seq<string>): Option<(U128, Consumed)> {
    None
  }

  /** `inc =>label` encodes the distance from the instruction to the label as its word. */
  function ToyInstruction(view: seq<string>, f: Resolver): InstrOutcome {
    if |view| >= 2 && view[0] == "inc" && |view[1]| >= 2 && view[1][..2] == "=>" then
      match f(DistanceCurrent(view[1][2..]))
      case Ok(v) => if 0 <= v < 65536 then Parsed(v, Consumed(2, 0)) else OutOfBound(v, 0, 65535)
      case Err(s) => UnknownSymbol(s)
    else NoMatch
  }

  function ToySyntax(): Syntax {
    Syntax(Grammar(ToyHeader, ToySymbolic, NoSigned, NoUnsigned), {"inc"}, ToyInstruction)
  }

  /**
   * A `.bytes` directive naming an unknown label: the first pass counts its
   * byte, and as written the second pass passes over it and emits nothing,
   * reporting no error.
   */
  lemma DirectiveErrorSwallowed()
    ensures Pass1(ToySyntax(), [".bytes", "u0,", "missing"], map[], 0) == Ok(Layout(map[], 1))
    ensures AssembleTokensAsWritten(ToySyntax(), [".bytes", "u0,", "missing"]) == Ok([])
  {
    var syn := ToySyntax();
    var ts := [".bytes", "u0,", "missing"];
    SwallowedFirstPass(syn, ts);
    SwallowedSecondPass(syn, ts);
  }

  /** The toy directive's value is the address of the symbol it names, cast to `u128`. */
  lemma ToyValue(f: Resolver)
    ensures Value(ToySyntax().directive, ["missing"], false, f)
      == if f(Address("missing")).Ok? then Some((AsU128(f(Address("missing")).value), Consumed(1, 0))) else None
  {
    var g := ToySyntax().directive;
    assert g.symbolic(["missing"]) == Some((Symbolic("missing", None), Consumed(1, 0)));
    assert RequestFor(Symbolic("missing", None)) == Address("missing");
    assert g.unsignedLiteral(["missing"]) == None;
  }

  /** The toy directive `.bytes u0, missing` with a resolver that knows `missing` emits its low byte. */
  lemma ToyDirective(f: Resolver)
    ensures var r := ParseBytesDirective(ToySyntax().directive, [".bytes", "u0,", "missing"], f);
      && (f(Address("missing")).Err? ==> r == Err(BadValue))
      && (f(Address("missing")) == Ok(2) ==> r == Ok(Emission([2], Consumed(3, 0))))
  {
    var g := ToySyntax().directive;
    var ts := [".bytes", "u0,", "missing"];
    assert g.header(ts) == Some((ByteType(false, 0), Consumed(2, 0)));
    assert Advance(ts, Consumed(2, 0)) == ["missing"];
    ToyValue(f);
    if f(Address("missing")) == Ok(2) {
      SmallAsU128(2);
      assert Width(ByteType(false, 0)) == 1;
      assert Pow2(8) == 256;
      assert InBounds(ByteType(false, 0), 2);
      assert Encode(2, 1) == [2];
      assert Then(Consumed(2, 0), Consumed(1, 0)) == Consumed(3, 0);
    }
  }

  lemma SwallowedFirstPass(syn: Syntax, ts: seq<string>)
    requires syn == ToySyntax() && ts == [".bytes", "u0,", "missing"]
    ensures Pass1(syn, ts, map[], 0) == Ok(Layout(map[], 1))
  {
    assert ".bytes"[5] == 's';
    assert !LabelAt(ts, 0);
    ToyDirective(Placeholder);
    assert ts[1..] == ["u0,", "missing"];
    assert Pass1Skip(ts[1..], Consumed(3, 0)) == [];
  }

  lemma SwallowedSecondPass(syn: Syntax, ts: seq<string>)
    requires syn == ToySyntax() && ts == [".bytes", "u0,", "missing"]
    ensures Pass2(syn, map[], ts, false) == Ok([])
    ensures Pass2(syn, map[], ts, true) == Err(DirectiveFailed(BadValue))
  {
    assert forall j :: 0 <= j < |ts| ==> ':' !in ts[j];
    SingleGroup(ts);
    ToySteps(syn, ts);
    OneGroup(RunGroupAt(syn, map[], false), Group(false, ts), 0);
    OneGroup(RunGroupAt(syn, map[], true), Group(false, ts), 0);
  }

  /** The groups of a one-group stream assemble as that group does. */
  lemma OneGroup(run: GroupRun, g: Group, count: int)
    ensures Groupwise(run, [g], count) == match run(Items(g, false), count)
      case Ok(bytes) => Ok(bytes)
      case Err(e) => Err(e)
  {
    assert [g][1..] == [];
    var r := run(Items(g, false), count);
    if r.Ok? {
      assert r.value + [] == r.value;
    }
  }

  /**
   * The only iteration over `.bytes u0, missing` with no labels known: as
   * written it finishes the group, corrected it reports the directive's
   * unreadable value.
   */
  lemma ToySteps(syn: Syntax, ts: seq<string>)
    requires syn == ToySyntax() && ts == [".bytes", "u0,", "missing"]
    ensures RunGroup(syn, map[], ts, 0, false) == Ok([])
    ensures RunGroup(syn, map[], ts, 0, true) == Err(DirectiveFailed(BadValue))
  {
    ToyStep(syn, ts);
    LoopStops(StepAt(syn, map[], false), ts, 0);
    LoopStops(StepAt(syn, map[], true), ts, 0);
  }

  lemma ToyStep(syn: Syntax, ts: seq<string>)
    requires syn == ToySyntax() && ts == [".bytes", "u0,", "missing"]
    ensures StepAt(syn, map[], false)(ts, 0) == Ok(None)
    ensures StepAt(syn, map[], true)(ts, 0) == Err(DirectiveFailed(BadValue))
  {
    ToyDirective(ResolverAt(map[], 0));
    assert ToyInstruction(ts, ResolverAt(map[], 0)) == NoMatch;
  }

  /** A loop whose first iteration finishes the group or fails emits nothing, or fails the same way. */
  lemma LoopStops(step: Iteration, view: seq<string>, count: int)
    ensures step(view, count) == Ok(None) ==> Loop(step, view, count) == Ok([])
    ensures step(view, count).Err? ==> Loop(step, view, count) == Err(step(view, count).error)
  {
  }

  /** A stream without labels is one group holding every token. */
  lemma SingleGroup(ts: seq<string>)
    requires ts != [] && forall j :: 0 <= j < |ts| ==> ':' !in ts[j]
    ensures Groups(ts) == [Group(false, ts)]
    ensures Items(Group(false, ts), false) == ts
  {
    assert LabelIndex(ts) == |ts| by {
      LabelIndexPlain(ts);
    }
    assert SkipGroup(ts) == [] by {
      SkipGroupPlain(ts);
    }
    GroupItems(ts, false);
    assert ts[..|ts|] == ts;
  }

  lemma {:induction false} LabelIndexPlain(ts: seq<string>)
    requires forall j :: 0 <= j < |ts| ==> ':' !in ts[j]
    ensures LabelIndex(ts) == |ts|
  {
    if ts != [] {
      LabelIndexPlain(ts[1..]);
    }
  }

  lemma {:induction false} SkipGroupPlain(ts: seq<string>)
    requires forall j :: 0 <= j < |ts| ==> ':' !in ts[j]
    ensures SkipGroup(ts) == []
  {
    if ts != [] {
      var t := ts[0];
      if t != [] {
        assert t[|t| - 1] in t;
      }
      SkipGroupPlain(ts[1..]);
    }
  }

  /** The corrected assembler reports the directive's unreadable value instead. */
  lemma DirectiveErrorNowReported()
    ensures AssembleTokens(ToySyntax(), [".bytes", "u0,", "missing"]) == Err(DirectiveFailed(BadValue))
  {
    var syn := ToySyntax();
    var ts := [".bytes", "u0,", "missing"];
    SwallowedFirstPass(syn, ts);
    SwallowedSecondPass(syn, ts);
  }
  /**
   * `inc =>next  next: inc =>next` on the small instruction set, whose word
   * is the raw distance: the first pass places `next` at byte 2,
   * and the second pass resolves each distance from the instruction's own
   * address, 2 for the first instruction and 0 for the second.
   */
  lemma LabelsResolveAcrossPasses()
    ensures AssembleTokens(ToySyntax(), ["inc", "=>next", "next:", "inc", "=>next"]) == Ok([2, 0, 0, 0])
  {
    var syn := ToySyntax();
    var ts := ["inc", "=>next", "next:", "inc", "=>next"];
    ExampleLayout(syn, ts);
    ExampleGroups(ts);
    ExampleRuns(syn, map["next" := 2]);
    ExamplePass2(syn, ts, map["next" := 2]);
  }

  lemma ExamplePass2(syn: Syntax, ts: seq<string>, labels: map<string, int>)
    requires |Groups(ts)| == 2
    requires Items(Groups(ts)[0], false) == ["inc", "=>next"] && Items(Groups(ts)[1], false) == ["inc", "=>next"]
    requires RunGroupAt(syn, labels, true)(["inc", "=>next"], 0) == Ok([2, 0])
    requires RunGroupAt(syn, labels, true)(["inc", "=>next"], 2) == Ok([0, 0])
    ensures Pass2(syn, labels, ts, true) == Ok([2, 0, 0, 0])
  {
    var run := RunGroupAt(syn, labels, true);
    GroupsInOrder(run, Groups(ts), [2, 0], [0, 0]);
    assert [2, 0] + [0, 0] == [2, 0, 0, 0];
  }

  /** Two groups assemble one after the other, the second from where the first ended. */
  lemma GroupsInOrder(run: GroupRun, gs: seq<Group>, b1: seq<Byte>, b2: seq<Byte>)
    requires |gs| == 2 && run(Items(gs[0], false), 0) == Ok(b1) && run(Items(gs[1], false), |b1|) == Ok(b2)
    ensures Groupwise(run, gs, 0) == Ok(b1 + b2)
  {
    assert gs[1..] == [gs[1]];
    OneGroup(run, gs[1], |b1|);
  }

  lemma ExampleRuns(syn: Syntax, labels: map<string, int>)
    requires syn == ToySyntax() && labels == map["next" := 2]
    ensures RunGroupAt(syn, labels, true)(["inc", "=>next"], 0) == Ok([2, 0])
    ensures RunGroupAt(syn, labels, true)(["inc", "=>next"], 2) == Ok([0, 0])
  {
    var view := ["inc", "=>next"];
    ExampleGroupRun(syn, labels, 0);
    ExampleGroupRun(syn, labels, 2);
    ExampleWords();
    var w0, w2 := Encode(2 - 0, 2), Encode(2 - 2, 2);
    assert RunGroupAt(syn, labels, true)(view, 0) == RunGroup(syn, labels, view, 0, true) == Ok(w0);
    assert RunGroupAt(syn, labels, true)(view, 2) == RunGroup(syn, labels, view, 2, true) == Ok(w2);
  }

  lemma ExampleWords()
    ensures Encode(2 - 0, 2) == [2, 0] && Encode(2 - 2, 2) == [0, 0]
  {
  }

  lemma ExampleLayout(syn: Syntax, ts: seq<string>)
    requires syn == ToySyntax() && ts == ["inc", "=>next", "next:", "inc", "=>next"]
    ensures Pass1(syn, ts, map[], 0) == Ok(Layout(map["next" := 2], 4))
  {
    var m := map["next" := 2];
    ExampleLayoutHead(syn, ts);
    ExampleLayoutLabel(syn, ts[2..], m);
    assert ts[2..][1..] == ts[3..];
    ExampleLayoutTail(syn, ts[3..], m);
  }

  lemma ExampleLayoutHead(syn: Syntax, ts: seq<string>)
    requires syn == ToySyntax() && ts == ["inc", "=>next", "next:", "inc", "=>next"]
    ensures Pass1(syn, ts, map[], 0) == Pass1(syn, ts[2..], map[], 2)
  {
    assert !EndsWithColon(ts[0]) && !EndsWithColon(ts[1]) && ts[1] != ":" && ts[2] != ":";
    assert ts[1] != BytesKeyword by {
      assert ts[1][0] != BytesKeyword[0];
    }
    assert ts[1..][1..] == ts[2..];
  }

  lemma ExampleLayoutLabel(syn: Syntax, ts: seq<string>, m: map<string, int>)
    requires ts == ["next:", "inc", "=>next"] && m == map["next" := 2]
    ensures Pass1(syn, ts, map[], 2) == Pass1(syn, ts[1..], m, 2)
  {
    assert LabelName("next:") == "next";
    assert EndsWithColon(ts[0]);
    assert map[]["next" := 2] == m;
  }

  lemma ExampleLayoutTail(syn: Syntax, ts: seq<string>, m: map<string, int>)
    requires syn == ToySyntax() && ts == ["inc", "=>next"]
    ensures Pass1(syn, ts, m, 2) == Ok(Layout(m, 4))
  {
    assert !EndsWithColon(ts[0]) && !EndsWithColon(ts[1]) && ts[1] != ":";
    assert ts[1] != BytesKeyword by {
      assert ts[1][0] != BytesKeyword[0];
    }
    assert ts[1] !in syn.mnemonics;
    assert Pass1(syn, ts, m, 2) == Pass1(syn, ts[1..], m, 4);
    var last := ts[1..];
    assert last[0] == ts[1] && last[1..] == [] && !LabelAt(last, 0);
    assert Pass1(syn, last, m, 4) == Pass1(syn, [], m, 4);
  }

  lemma ExampleGroups(ts: seq<string>)
    requires ts == ["inc", "=>next", "next:", "inc", "=>next"]
    ensures Groups(ts) == [Group(false, ts), Group(false, ts[3..])]
    ensures Items(Group(false, ts), false) == ["inc", "=>next"]
    ensures Items(Group(false, ts[3..]), false) == ["inc", "=>next"]
  {
    ExampleSkip(ts);
    ExampleItems(ts);
    ExampleTail(ts[3..]);
    GroupsUnfold(ts);
  }

  /** The first group starts at the front of the stream, the rest start after its label. */
  lemma GroupsUnfold(ts: seq<string>)
    requires ts != []
    ensures Groups(ts) == [Group(false, ts)] + Groups(SkipGroup(ts))
  {
  }

  lemma ExampleTail(rest: seq<string>)
    requires rest == ["inc", "=>next"]
    ensures Groups(rest) == [Group(false, rest)]
    ensures Items(Group(false, rest), false) == ["inc", "=>next"]
  {
    assert ':' !in rest[0] && ':' !in rest[1];
    SingleGroup(rest);
  }

  lemma ExampleItems(ts: seq<string>)
    requires ts == ["inc", "=>next", "next:", "inc", "=>next"]
    ensures Items(Group(false, ts), false) == ["inc", "=>next"]
  {
    assert ':' in ts[2] && ':' !in ts[0] && ':' !in ts[1];
    assert LabelIndex(ts) == 2 by {
      assert ts[1..][1..] == ts[2..];
    }
    GroupItems(ts, false);
    assert ts[..2] == ["inc", "=>next"];
  }

  lemma ExampleSkip(ts: seq<string>)
    requires ts == ["inc", "=>next", "next:", "inc", "=>next"]
    ensures SkipGroup(ts) == ts[3..]
  {
    assert EndsWithColon(ts[2]) && !EndsWithColon(ts[0]) && !EndsWithColon(ts[1]);
    assert ts[1..][1..] == ts[2..];
    assert ts[2..][1..] == ts[3..];
    assert SkipGroup(ts[2..]) == ts[3..];
  }

  /** `inc =>next` at byte `count`, with `next` at byte 2, emits the distance `2 - count`. */
  lemma ExampleGroupRun(syn: Syntax, labels: map<string, int>, count: int)
    requires syn == ToySyntax() && labels == map["next" := 2] && 0 <= count <= 2
    ensures RunGroup(syn, labels, ["inc", "=>next"], count, true) == Ok(Encode(2 - count, 2))
  {
    var view := ["inc", "=>next"];
    var step := StepAt(syn, labels, true);
    ExampleInstruction(syn, labels, count);
    assert Advance(view, Consumed(2, 0)) == [];
    assert Size([]) < Size(view);
    ExampleEnd(syn, labels, count + 2);
    LoopStops(step, [], count + 2);
    assert Encode(2 - count, 2) + [] == Encode(2 - count, 2);
  }

  lemma ExampleInstruction(syn: Syntax, labels: map<string, int>, count: int)
    requires syn == ToySyntax() && labels == map["next" := 2] && 0 <= count <= 2
    ensures StepAt(syn, labels, true)(["inc", "=>next"], count) == Ok(Some(Emission(Encode(2 - count, 2), Consumed(2, 0))))
  {
    var view := ["inc", "=>next"];
    var f := ResolverAt(labels, count);
    assert syn.directive.header(view) == None;
    assert "=>next"[..2] == "=>" && "=>next"[2..] == "next";
    assert f(DistanceCurrent("next")) == Ok(2 - count);
    assert ToyInstruction(view, f) == Parsed(2 - count, Consumed(2, 0));
  }

  lemma ExampleEnd(syn: Syntax, labels: map<string, int>, count: int)
    requires syn == ToySyntax()
    ensures StepAt(syn, labels, true)([], count) == Ok(None)
  {
    assert syn.directive.header([]) == None;
    assert ToyInstruction([], ResolverAt(labels, count)) == NoMatch;
  }
}
