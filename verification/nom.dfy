/**
  The parts of the `nom` 4 parser-combinator library the GIF parsers rely on,
  stated as assumed semantics: the library's own source is not part of this model.

  A parser is a pure function from an input slice to one of three outcomes:
  - `Done(value, rest)`: success, `rest` being the unconsumed suffix;
  - `Error(at, kind)`: a recoverable failure (`Err::Error(Code(at, kind))`),
    `at` being the input slice the failing primitive was looking at;
  - `Incomplete(needed)`: the input ended early (`Err::Incomplete(Needed::Size(needed))`).
*/
module Nom {

  /** An octet of input, the source's `u8`. */
  type byte = x: int | 0 <= x < 0x100

  type Bytes = seq<byte>

  /** The source's `u16`. */
  type u16 = x: int | 0 <= x < 0x1_0000

  datatype Option<+T> = None | Some(value: T)

  /** The source's `Result<T, ()>`: every failure collapses to the unit error. */
  datatype Outcome<+T> = Ok(value: T) | Err

  /** The `ErrorKind` values the modelled parsers can produce. */
  datatype ErrorKind = Tag | Alt | MapRes | Custom(code: nat)

  /** nom's `IResult<&[u8], T>`; failure-compatible so that `:-` reads like `do_parse!`. */
  datatype Result<+T> =
    | Done(value: T, rest: Bytes)
    | Error(at: Bytes, kind: ErrorKind)
    | Incomplete(needed: nat)
  {
    predicate IsFailure() {
      !Done?
    }

    function PropagateFailure<U>(): Result<U>
      requires !Done?
    {
      match this
      case Error(at, kind) => Error(at, kind)
      case Incomplete(needed) => Incomplete(needed)
    }

    function Extract(): (T, Bytes)
      requires Done?
    {
      (value, rest)
    }
  }

  /** The outcome of comparing an input against an expected tag (nom's `CompareResult`). */
  datatype Comparison = Match | Short | Mismatch

  /**
    Byte-wise comparison of the input `s` against the tag `t`: the first
    differing byte is a mismatch; running out of input first is `Short`.
  */
  function Compare(s: Bytes, t: Bytes): (c: Comparison)
    ensures c == Match <==> |t| <= |s| && s[..|t|] == t
    ensures c == Short <==> |s| < |t| && s == t[..|s|]
    decreases |t|
  {
    if |t| == 0 then Match
    else if |s| == 0 then Short
    else if s[0] != t[0] then Mismatch
    else
      var c := Compare(s[1..], t[1..]);
      assert s == [s[0]] + s[1..];
      assert t == [t[0]] + t[1..];
      c
  }

  /** A differing byte within both lengths makes the comparison a mismatch. */
  lemma MismatchAt(s: Bytes, t: Bytes, k: nat)
    requires k < |s| && k < |t| && s[k] != t[k]
    ensures Compare(s, t) == Mismatch
  {
    if |t| <= |s| {
      assert s[..|t|][k] == s[k];
    }
  }

  /** `tag!(t)`: consume exactly the bytes `t`. */
  function TagBytes(t: Bytes, s: Bytes): (r: Result<Bytes>)
    ensures r.Done? <==> |t| <= |s| && s[..|t|] == t
    ensures r.Done? ==> r.value == t && r.rest == s[|t|..]
    ensures r.Incomplete? <==> |s| < |t| && s == t[..|s|]
    ensures r.Incomplete? ==> r.needed == |t|
    ensures r.Error? ==> r == Error(s, Tag)
  {
    match Compare(s, t)
    case Match => Done(s[..|t|], s[|t|..])
    case Short => Incomplete(|t|)
    case Mismatch => Error(s, Tag)
  }

  /** `take!(n)`: the next `n` bytes as a slice. */
  function Take(n: nat, s: Bytes): (r: Result<Bytes>)
    ensures !r.Error?
    ensures r.Done? <==> n <= |s|
    ensures r.Done? ==> r.value == s[..n] && r.rest == s[n..]
    ensures r.Incomplete? ==> r.needed == n
  {
    if |s| < n then Incomplete(n) else Done(s[..n], s[n..])
  }

  /** `le_u8`: one byte. */
  function LeU8(s: Bytes): (r: Result<byte>)
    ensures !r.Error?
    ensures r.Done? <==> |s| >= 1
    ensures r.Done? ==> r.value == s[0] && r.rest == s[1..]
    ensures r.Incomplete? ==> r.needed == 1
  {
    if |s| < 1 then Incomplete(1) else Done(s[0], s[1..])
  }

  /** A sequence is its prefix followed by its suffix. */
  lemma SplitAt(s: Bytes, n: nat)
    requires n <= |s|
    ensures s == s[..n] + s[n..]
  {
  }

  lemma ConcatAssoc(a: Bytes, b: Bytes, c: Bytes)
    ensures (a + b) + c == a + (b + c)
  {
  }

  /** The value of the little-endian pair `lo, hi`. */
  function LittleEndian(lo: byte, hi: byte): u16 {
    lo + 256 * hi
  }

  /** The little-endian encoding of `v`, low byte first. */
  function U16Bytes(v: u16): (b: Bytes)
    ensures |b| == 2
  {
    [v % 256, v / 256]
  }

  /** `le_u16`: two bytes, low byte first. */
  function LeU16(s: Bytes): (r: Result<u16>)
    ensures !r.Error?
    ensures r.Done? <==> |s| >= 2
    ensures r.Done? ==> r.value == LittleEndian(s[0], s[1]) && r.rest == s[2..]
    ensures r.Incomplete? ==> r.needed == 2
  {
    if |s| < 2 then Incomplete(2) else Done(LittleEndian(s[0], s[1]), s[2..])
  }

  /** Encoding a decoded pair gives the pair back. */
  lemma LittleEndianInverse(lo: byte, hi: byte)
    ensures U16Bytes(LittleEndian(lo, hi)) == [lo, hi]
  {
  }

  /** Decoding an encoded value gives the value back. */
  lemma U16RoundTrip(v: u16)
    ensures LittleEndian(U16Bytes(v)[0], U16Bytes(v)[1]) == v
  {
  }

  /** Bit 7 of a packed byte, the source's `p & 0x80 != 0`. */
  predicate Bit7(p: byte) {
    p >= 0x80
  }

  /** The low three bits of a packed byte, the source's `p & 0b_0000_0111`. */
  function Low3Bits(p: byte): (k: nat)
    ensures k < 8
  {
    p % 8
  }

  /** `Bit7` and `Low3Bits` are the source's bitwise operations on the 8-bit value. */
  lemma BitOperations(b: bv8)
    ensures Bit7(b as int) <==> b & 0x80 != 0
    ensures Low3Bits(b as int) == (b & 0x07) as int
  {
  }

  /** `opt!(p)`: a parser's `Error` becomes `None` on the original input; `Incomplete` stays. */
  function Opt<T>(r: Result<T>, s: Bytes): (o: Result<Option<T>>)
    ensures r.Done? ==> o == Done(Some(r.value), r.rest)
    ensures r.Error? ==> o == Done(None, s)
    ensures r.Incomplete? ==> o == Incomplete(r.needed)
  {
    match r
    case Done(v, rest) => Done(Some(v), rest)
    case Error(_, _) => Done(None, s)
    case Incomplete(n) => Incomplete(n)
  }

  /** One step of `alt!`: the second alternative is tried only when the first fails with `Error`. */
  function OrElse<T>(first: Result<T>, second: Result<T>): (r: Result<T>)
    ensures first.Error? ==> r == second
    ensures !first.Error? ==> r == first
  {
    if first.Error? then second else first
  }

  /** `alt!` over a list of alternatives already applied to the input `s`. */
  function AltChoice<T>(alternatives: seq<Result<T>>, s: Bytes): (r: Result<T>)
    ensures r.Done? ==> r in alternatives
    ensures (forall k | 0 <= k < |alternatives| :: alternatives[k].Error?) ==> r == Error(s, Alt)
    ensures r.Error? ==> forall k | 0 <= k < |alternatives| :: alternatives[k].Error?
    ensures !r.Error? ==>
              exists k | 0 <= k < |alternatives| ::
                r == alternatives[k] && forall j | 0 <= j < k :: alternatives[j].Error?
  {
    if |alternatives| == 0 then Error(s, Alt)
    else OrElse(alternatives[0], AltChoice(alternatives[1..], s))
  }

  /** `alt!` over four alternatives, unfolded. */
  lemma AltChoiceOfFour<T>(a: Result<T>, b: Result<T>, c: Result<T>, d: Result<T>, s: Bytes)
    ensures AltChoice([a, b, c, d], s) == OrElse(a, OrElse(b, OrElse(c, OrElse(d, Error(s, Alt)))))
  {
    assert [d][1..] == [];
    assert AltChoice([d], s) == OrElse(d, Error(s, Alt));
    assert [c, d][1..] == [d];
    assert AltChoice([c, d], s) == OrElse(c, AltChoice([d], s));
    assert [b, c, d][1..] == [c, d];
    assert AltChoice([b, c, d], s) == OrElse(b, AltChoice([c, d], s));
    assert [a, b, c, d][1..] == [b, c, d];
  }

  /**
    When the only alternatives that do not fail with `Error` are copies of one
    success, `alt!` returns that success, whatever the order of the list.
  */
  lemma {:induction false} AltChoiceOnlySuccess<T>(alternatives: seq<Result<T>>, s: Bytes, x: Result<T>)
    requires x.Done? && x in alternatives
    requires forall k | 0 <= k < |alternatives| :: alternatives[k].Error? || alternatives[k] == x
    ensures AltChoice(alternatives, s) == x
    decreases |alternatives|
  {
    if alternatives[0].Error? {
      var tail := alternatives[1..];
      assert x in tail;
      assert forall k | 0 <= k < |tail| :: tail[k] == alternatives[k + 1];
      AltChoiceOnlySuccess(tail, s, x);
    }
  }

  /**
    When the alternatives exclude one another (a success means every other one
    fails with `Error`), any rearrangement of them gives the same success or
    the same `Error`.
  */
  lemma AltChoiceReordered<T>(alternatives: seq<Result<T>>, rearranged: seq<Result<T>>, s: Bytes)
    requires multiset(rearranged) == multiset(alternatives)
    requires forall i, j | 0 <= i < |alternatives| && 0 <= j < |alternatives| && i != j && alternatives[i].Done? ::
               alternatives[j].Error?
    ensures !AltChoice(alternatives, s).Incomplete? ==> AltChoice(rearranged, s) == AltChoice(alternatives, s)
  {
    var x := AltChoice(alternatives, s);
    assert forall k | 0 <= k < |rearranged| :: rearranged[k] in multiset(alternatives);
    if x.Done? {
      assert x in multiset(rearranged);
      AltChoiceOnlySuccess(rearranged, s, x);
    }
  }

  /**
    When one alternative succeeds and every other one fails with `Error`,
    `alt!` returns that success, wherever it sits in the list.
  */
  lemma {:induction false} AltChoiceUnique<T>(alternatives: seq<Result<T>>, s: Bytes, k: nat)
    requires k < |alternatives| && alternatives[k].Done?
    requires forall j | 0 <= j < |alternatives| && j != k :: alternatives[j].Error?
    ensures AltChoice(alternatives, s) == alternatives[k]
    decreases |alternatives|
  {
    if k > 0 {
      var tail := alternatives[1..];
      assert forall j | 0 <= j < |tail| && j != k - 1 :: tail[j] == alternatives[j + 1];
      AltChoiceUnique(tail, s, k - 1);
    }
  }
}
