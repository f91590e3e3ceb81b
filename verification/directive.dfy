/**
 * The `.bytes <type>, <value>` data directive, `parse_bytes_direcive` in
 * src/raw.rs:96-197. The keyword/type/comma header, the symbol grammar and
 * the integer-literal grammars belong to the instruction-set library and are
 * parameters here (`Grammar`); the order in which they are tried, the bound
 * checks and the emitted bytes are modelled exactly.
 */
module Directive {
  import opened Wrappers
  import opened Cursor
  import opened LittleEndian

  /** The values an `i128` and a `u128` can hold. */
  type I128 = v: int | -(Pow2(127) as int) <= v < Pow2(127)
  type U128 = v: int | 0 <= v < Pow2(128)

  /** The exponent of a directive type: `u<p>`/`i<p>` is `2^p` bytes wide, and `p <= 4` (src/raw.rs:112). */
  type Pow2Exp = p: nat | p <= 4

  /** A directive type: signedness and the base-two logarithm of its byte width. */
  datatype ByteType = ByteType(signed: bool, pow2: Pow2Exp)

  /** A symbol request, the `Resolve` of the instruction-set library. */
  datatype Request =
    | Address(name: string)
    | DistanceCurrent(name: string)
    | Distance(from: string, to: string)

  /** A symbol resolver: a value, or the symbol it could not resolve. */
  type Resolver = Request -> Result<int, string>

  /** A symbolic directive value: `label`, or `from=>to`. */
  datatype Symbolic = Symbolic(first: string, second: Option<string>)

  /** The grammars the directive parser borrows from the instruction-set library. */
  datatype Grammar = Grammar(
    header: seq<string> -> Option<(ByteType, Consumed)>,
    symbolic: seq<string> -> Option<(Symbolic, Consumed)>,
    signedLiteral: seq<string> -> Option<(I128, Consumed)>,
    unsignedLiteral: seq<string> -> Option<(U128, Consumed)>)

  datatype DirError =
    | NotDirective
    | BadValue
    | OutOfBounds(actual: int, min: int, max: int)

  /** The bytes a directive emits, and how much of the view it used. */
  datatype Emission = Emission(bytes: seq<Byte>, consumed: Consumed)

  /** The byte width of a directive type. */
  function Width(t: ByteType): (n: nat)
    ensures 1 <= n <= 16
  {
    assert Pow2(0) == 1 && Pow2(1) == 2 && Pow2(2) == 4 && Pow2(3) == 8 && Pow2(4) == 16;
    Pow2(t.pow2)
  }

  /** The bounds of a signed type of `w` bytes, as the source computes them (src/raw.rs:147-148). */
  function SignedMin(w: nat): int
    requires w >= 1
  {
    -(Pow2(8 * w - 1) as int) - 1
  }

  function SignedMax(w: nat): int
    requires w >= 1
  {
    Pow2(8 * w - 1)
  }

  /** The (inclusive) bound of an unsigned type of `w` bytes (src/raw.rs:178). */
  function UnsignedMax(w: nat): int {
    Pow2(8 * w)
  }

  /** The bound check of src/raw.rs:150 and src/raw.rs:180. */
  predicate InBounds(t: ByteType, v: int) {
    var w := Width(t);
    if t.signed then SignedMin(w) <= v <= SignedMax(w) else v <= UnsignedMax(w)
  }

  /** `val as u128` for a resolved (32-bit) value: negative values wrap around. */
  function AsU128(v: int): U128 {
    v % Pow2(128)
  }

  /** The request a symbolic value makes: its address, or the distance between two labels. */
  function RequestFor(s: Symbolic): Request {
    match s.second
    case Some(to) => Distance(s.first, to)
    case None => Address(s.first)
  }

  /**
   * The symbolic reading of a value (`parsed_ref`, src/raw.rs:115-132): it
   * fails when the symbol grammar does not match or the resolver does not
   * know a symbol.
   */
  function ResolvedSymbol(g: Grammar, view: seq<string>, f: Resolver): (r: Option<(int, Consumed)>)
    ensures r.Some? ==>
      && g.symbolic(view).Some?
      && f(RequestFor(g.symbolic(view).value.0)) == Ok(r.value.0)
      && r.value.1 == g.symbolic(view).value.1
  {
    match g.symbolic(view)
    case None => None
    case Some((sym, c)) =>
      match f(RequestFor(sym))
      case Ok(v) => Some((v, c))
      case Err(_) => None
  }

  /** The integer-literal reading of a value, as `i128` or `u128`. */
  function Literal(g: Grammar, view: seq<string>, signed: bool): Option<(int, Consumed)> {
    if signed then
      match g.signedLiteral(view)
      case Some((v, c)) => Some((v as int, c))
      case None => None
    else
      match g.unsignedLiteral(view)
      case Some((v, c)) => Some((v as int, c))
      case None => None
  }

  /**
   * The value of a directive: the symbolic reading first, and the literal
   * only when that fails (src/raw.rs:137-144, 168-175).
   */
  function Value(g: Grammar, view: seq<string>, signed: bool, f: Resolver): Option<(int, Consumed)> {
    match ResolvedSymbol(g, view, f)
    case Some((v, c)) => Some((if signed then v else AsU128(v), c))
    case None => Literal(g, view, signed)
  }

  /**
   * `parse_bytes_direcive`: recognise the header, read the value from where
   * the header stopped, check its bounds and emit its low `Width` bytes.
   */
  function ParseBytesDirective(g: Grammar, view: seq<string>, f: Resolver): (r: Result<Emission, DirError>)
    ensures (r.Err? && r.error.NotDirective?) <==> g.header(view).None?
    ensures r.Ok? ==> g.header(view).Some? && |r.value.bytes| == Width(g.header(view).value.0)
  {
    match g.header(view)
    case None => Err(NotDirective)
    case Some((t, c1)) =>
      match Value(g, Advance(view, c1), t.signed, f)
      case None => Err(BadValue)
      case Some((v, c2)) =>
        var w := Width(t);
        if InBounds(t, v) then
          Ok(Emission(Encode(v, w), Then(c1, c2)))
        else if t.signed then
          Err(OutOfBounds(v, SignedMin(w), SignedMax(w)))
        else
          Err(OutOfBounds(v, 0, UnsignedMax(w)))
  }

  /** The pass-one resolver `|_| Ok(2)`: every symbol is "known" (src/raw.rs:280). */
  function Placeholder(req: Request): Result<int, string> {
    Ok(2)
  }

  // ---------------------------------------------------------------------------
  // Properties
  // ---------------------------------------------------------------------------

  /**
   * Once header and value are read, the directive succeeds exactly when the
   * value is within the type's bounds; it then emits the value's low `Width`
   * bytes in little-endian order, and otherwise reports the value and the
   * bounds it broke.
   */
  lemma DirectiveOutcome(g: Grammar, view: seq<string>, f: Resolver)
    requires g.header(view).Some?
    requires Value(g, Advance(view, g.header(view).value.1), g.header(view).value.0.signed, f).Some?
    ensures var t := g.header(view).value.0;
      var v := Value(g, Advance(view, g.header(view).value.1), t.signed, f).value.0;
      var r := ParseBytesDirective(g, view, f);
      var w := Width(t);
      && (r.Ok? <==> InBounds(t, v))
      && (r.Ok? ==> Decode(r.value.bytes) == v % Pow2(8 * w))
      && (!r.Ok? && t.signed ==> r == Err(OutOfBounds(v, SignedMin(w), SignedMax(w))))
      && (!r.Ok? && !t.signed ==> r == Err(OutOfBounds(v, 0, UnsignedMax(w))))
  {
    var t := g.header(view).value.0;
    var v := Value(g, Advance(view, g.header(view).value.1), t.signed, f).value.0;
    DecodeEncode(v, Width(t));
  }

  /**
   * A directive's consumption ends exactly where its value ended: consuming
   * it leaves the view that reading the header and then the value leaves.
   */
  lemma DirectiveConsumption(g: Grammar, view: seq<string>, f: Resolver)
    requires ParseBytesDirective(g, view, f).Ok?
    ensures var c1 := g.header(view).value.1;
      var value := Value(g, Advance(view, c1), g.header(view).value.0.signed, f);
      value.Some? && Advance(view, ParseBytesDirective(g, view, f).value.consumed) == Advance(Advance(view, c1), value.value.1)
  {
    var c1 := g.header(view).value.1;
    var value := Value(g, Advance(view, c1), g.header(view).value.0.signed, f);
    AdvanceThen(view, c1, value.value.1);
  }

  /** When the header is read but no value can be, the directive reports a bad value. */
  lemma DirectiveWithoutValue(g: Grammar, view: seq<string>, f: Resolver)
    requires g.header(view).Some?
    requires Value(g, Advance(view, g.header(view).value.1), g.header(view).value.0.signed, f).None?
    ensures ParseBytesDirective(g, view, f) == Err(BadValue)
  {
  }

  /**
   * The number of bytes a directive emits depends only on its header, never
   * on the resolver or the value: the placeholder resolver of pass one
   * measures exactly what pass two emits.
   */
  lemma LengthIndependentOfResolver(g: Grammar, view: seq<string>, f1: Resolver, f2: Resolver)
    requires ParseBytesDirective(g, view, f1).Ok? && ParseBytesDirective(g, view, f2).Ok?
    ensures |ParseBytesDirective(g, view, f1).value.bytes| == |ParseBytesDirective(g, view, f2).value.bytes|
  {
  }

  /** A symbol the resolver knows is used even when the text would also read as a literal. */
  lemma SymbolBeforeLiteral(g: Grammar, view: seq<string>, signed: bool, f: Resolver)
    requires g.symbolic(view).Some? && f(RequestFor(g.symbolic(view).value.0)).Ok?
    ensures var a := f(RequestFor(g.symbolic(view).value.0)).value;
      Value(g, view, signed, f) == Some((if signed then a else AsU128(a), g.symbolic(view).value.1))
  {
  }

  /** When the symbol grammar fails, or names a symbol the resolver does not know, the literal is read. */
  lemma LiteralFallback(g: Grammar, view: seq<string>, signed: bool, f: Resolver)
    requires g.symbolic(view).None? || f(RequestFor(g.symbolic(view).value.0)).Err?
    ensures Value(g, view, signed, f) == Literal(g, view, signed)
  {
  }

  /**
   * Under the placeholder resolver a symbolic value never breaks a bound: in
   * pass one a directive whose value reads as a symbol always emits.
   */
  lemma PlaceholderSymbolEmits(g: Grammar, view: seq<string>)
    requires g.header(view).Some?
    requires g.symbolic(Advance(view, g.header(view).value.1)).Some?
    ensures ParseBytesDirective(g, view, Placeholder).Ok?
  {
    var (t, c1) := g.header(view).value;
    SymbolBeforeLiteral(g, Advance(view, c1), t.signed, Placeholder);
    PlaceholderInBounds(t);
    DirectiveOutcome(g, view, Placeholder);
  }

  /** The placeholder value 2, read as the directive's type reads a resolved value, is within every type's bounds. */
  lemma PlaceholderInBounds(t: ByteType)
    ensures InBounds(t, if t.signed then 2 else AsU128(2))
  {
    var w := Width(t);
    if t.signed {
      Pow2AtLeast(8 * w - 1);
    } else {
      SmallAsU128(2);
      Pow2AtLeast(8 * w);
    }
  }

  /** Values that fit a `u128` are unchanged by the cast. */
  lemma SmallAsU128(v: int)
    requires 0 <= v <= 128
    ensures AsU128(v) == v
  {
    Pow2AtLeast(128);
    DivModUnique(v, Pow2(128), 0, v);
  }

  lemma {:induction false} Pow2AtLeast(n: nat)
    requires n >= 1
    ensures Pow2(n) >= n + 1
  {
    if n > 1 {
      Pow2AtLeast(n - 1);
    }
  }

  /**
   * The signed bounds admit exactly one value more than two's complement
   * at each end, and those two values alias the opposite extreme: the top
   * value `2^(8w-1)` emits the same bytes as the minimum `-2^(8w-1)`, and
   * the bottom value `-2^(8w-1)-1` the same bytes as `2^(8w-1)-1`.
   */
  lemma SignedBoundsAlias(t: ByteType, h: int)
    requires t.signed && h == Pow2(8 * Width(t) - 1)
    ensures InBounds(t, h) && InBounds(t, -h - 1) && !InBounds(t, h + 1) && !InBounds(t, -h - 2)
    ensures Encode(h, Width(t)) == Encode(-h, Width(t)) && Encode(-h - 1, Width(t)) == Encode(h - 1, Width(t))
  {
    SignedEdges(t, h);
    SignedAlias(Width(t), h);
  }

  /** The signed bounds are `-h - 1` and `h`, for `h` the top value. */
  lemma SignedEdges(t: ByteType, h: int)
    requires t.signed && h == Pow2(8 * Width(t) - 1)
    ensures InBounds(t, h) && InBounds(t, -h - 1) && !InBounds(t, h + 1) && !InBounds(t, -h - 2)
  {
    assert SignedMin(Width(t)) == -h - 1 && SignedMax(Width(t)) == h;
  }

  /** The two pairs of signed edge values that share their `w` bytes. */
  lemma SignedAlias(w: nat, h: int)
    requires w >= 1 && h == Pow2(8 * w - 1)
    ensures Encode(h, w) == Encode(-h, w) && Encode(-h - 1, w) == Encode(h - 1, w)
  {
    Pow2Add(1, 8 * w - 1);
    assert Pow2(8 * w) == 2 * h;
    HalfResidues(h);
    SameBytes(h, -h, w);
    SameBytes(-h - 1, h - 1, w);
  }

  /** Residues modulo `2h` of the values at the edges of the signed range. */
  lemma HalfResidues(h: int)
    requires h >= 1
    ensures h % (2 * h) == h && (-h) % (2 * h) == h
    ensures (-h - 1) % (2 * h) == h - 1 && (h - 1) % (2 * h) == h - 1
  {
    DivModUnique(h, 2 * h, 0, h);
    DivModUnique(-h, 2 * h, -1, h);
    DivModUnique(-h - 1, 2 * h, -1, h - 1);
    DivModUnique(h - 1, 2 * h, 0, h - 1);
  }

  /**
   * The unsigned bound is inclusive: `2^(8w)` is accepted and emits the same
   * bytes as `0`, while nothing above it is accepted.
   */
  lemma UnsignedBoundAliasesZero(t: ByteType)
    requires !t.signed
    ensures var w := Width(t);
      && InBounds(t, UnsignedMax(w)) && !InBounds(t, UnsignedMax(w) + 1)
      && Encode(UnsignedMax(w), w) == Encode(0, w)
  {
    var w := Width(t);
    DivModUnique(Pow2(8 * w), Pow2(8 * w), 1, 0);
    SameBytes(UnsignedMax(w), 0, w);
  }

  /** `.bytes i0, 200` is refused: one signed byte admits -129 to 128. */
  lemma SignedByteRefuses200()
    ensures !InBounds(ByteType(true, 0), 200)
    ensures SignedMin(Width(ByteType(true, 0))) == -129 && SignedMax(Width(ByteType(true, 0))) == 128
  {
    assert Width(ByteType(true, 0)) == 1;
    assert Pow2(7) == 128;
  }

  // ---------------------------------------------------------------------------
  // The bounds of 16-byte types, as written
  // ---------------------------------------------------------------------------

  /**
   * `2u128.pow(e)` / `2i128.pow(e)` in an integer with `bits` value bits: the
   * power exists exactly when it is representable there, that is, below
   * `2^bits`.
   */
  function CheckedPow2(e: nat, bits: nat): (r: Option<nat>)
    ensures r.Some? <==> Pow2(e) < Pow2(bits)
    ensures r.Some? ==> r.value == Pow2(e)
  {
    if e < bits then
      Pow2Less(e, bits);
      Some(Pow2(e))
    else if bits < e then
      Pow2Less(bits, e);
      None
    else
      None
  }

  /** The unsigned bound exactly as src/raw.rs:178 evaluates it in `u128` arithmetic. */
  function UnsignedMaxAsWritten(w: nat): Option<nat> {
    CheckedPow2(8 * w, 128)
  }

  /** The signed maximum exactly as src/raw.rs:148 evaluates it in `i128` arithmetic (127 value bits). */
  function SignedMaxAsWritten(w: nat): Option<nat>
    requires w >= 1
  {
    CheckedPow2(8 * w - 1, 127)
  }

  /**
   * For the 16-byte types `u4` and `i4` the source's bound computations
   * overflow 128-bit arithmetic (a panic in a debug build, a wrapped bound in
   * a release build); for every narrower type they agree with the bounds
   * this model uses.
   */
  lemma WideBoundsOverflowAsWritten(t: ByteType)
    ensures t.pow2 == 4 ==> UnsignedMaxAsWritten(Width(t)).None? && SignedMaxAsWritten(Width(t)).None?
    ensures t.pow2 < 4 ==> UnsignedMaxAsWritten(Width(t)) == Some(UnsignedMax(Width(t)))
    ensures t.pow2 < 4 ==> SignedMaxAsWritten(Width(t)) == Some(SignedMax(Width(t)))
  {
    assert Width(t) == Pow2(t.pow2);
    assert Pow2(0) == 1 && Pow2(1) == 2 && Pow2(2) == 4 && Pow2(3) == 8 && Pow2(4) == 16;
  }

  /**
   * The bounds this model uses are defined for every directive type, and a
   * 16-byte type admits every value its literal grammar can produce.
   */
  lemma WideBoundsCorrected(v: int)
    ensures 0 <= v < Pow2(128) ==> InBounds(ByteType(false, 4), v)
    ensures -(Pow2(127) as int) <= v < Pow2(127) ==> InBounds(ByteType(true, 4), v)
  {
    assert Width(ByteType(false, 4)) == 16;
  }
}
