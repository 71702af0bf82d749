/** A model of HotSpot's direct object constant (DirectHotSpotObjectConstantImpl):
    a compile-time constant naming a heap object, tagged with whether the
    reference is in narrow (compressed) or wide (uncompressed) encoding.
 */
module DirectHotSpotObjectConstant {

  /** A heap object. It has no fields here: what matters is its identity,
      and Dafny compares class references by identity, as Java does. */
  class HeapObject { }

  /** Java's 32-bit `int`, the range of an identity hash code. */
  type JavaInt = x: int | -0x8000_0000 <= x < 0x8000_0000

  /** The kinds of exception the constant's operations throw. */
  datatype Detail = AlreadyCompressed | NotCompressed

  datatype Error =
    | NullPointerException
    | IllegalArgumentException(detail: Detail)

  datatype Result<T> = Ok(value: T) | Err(error: Error)

  /** A constant for a reference:
      - `Null(compressed)`: one of the two shared null constants;
      - `Obj(obj, compressed)`: a direct object constant, whose object is never null. */
  datatype Constant =
    | Null(compressed: bool)
    | Obj(obj: HeapObject, compressed: bool)

  /** The compressed null singleton. */
  const CompressedNull: Constant := Null(true)

  /** The uncompressed null pointer constant. */
  const NullPointer: Constant := Null(false)

  /** The private constructor: its assertion that the object is not null is a
      precondition here. */
  function NewObjectConstant(o: HeapObject?, compressed: bool): (c: Constant)
    requires o != null
    ensures c.Obj? && c.obj == o && c.compressed == compressed
  {
    Obj(o, compressed)
  }

  /** A null object maps to the null singleton of the requested encoding;
      any other object becomes a new object constant. */
  function ForObject(o: HeapObject?, compressed: bool): (r: Constant)
    ensures r.compressed == compressed
    ensures o == null <==> r.Null?
    ensures o == null ==> r == (if compressed then CompressedNull else NullPointer)
    ensures o != null ==> r.Obj? && r.obj == o
  {
    if o == null then
      (if compressed then CompressedNull else NullPointer)
    else
      NewObjectConstant(o, compressed)
  }

  /** Like `ForObject`, but a null object is a caller error. */
  function ForNonNullObject(o: HeapObject?, compressed: bool): (r: Result<Constant>)
    ensures r.Err? <==> o == null
    ensures r.Err? ==> r.error == NullPointerException
    ensures r.Ok? ==> r.value.Obj? && r.value == ForObject(o, compressed)
  {
    if o == null then
      Err(NullPointerException)
    else
      Ok(NewObjectConstant(o, compressed))
  }

  /** Switches an uncompressed object constant to the compressed encoding. */
  function Compress(c: Constant): (r: Result<Constant>)
    requires c.Obj?
    ensures r.Err? <==> c.compressed
    ensures r.Err? ==> r.error == IllegalArgumentException(AlreadyCompressed)
    ensures r.Ok? ==> r.value.Obj? && r.value.obj == c.obj && r.value.compressed
  {
    if c.compressed then
      Err(IllegalArgumentException(AlreadyCompressed))
    else
      Ok(NewObjectConstant(c.obj, true))
  }

  /** Switches a compressed object constant to the uncompressed encoding. */
  function Uncompress(c: Constant): (r: Result<Constant>)
    requires c.Obj?
    ensures r.Err? <==> !c.compressed
    ensures r.Err? ==> r.error == IllegalArgumentException(NotCompressed)
    ensures r.Ok? ==> r.value.Obj? && r.value.obj == c.obj && !r.value.compressed
  {
    if !c.compressed then
      Err(IllegalArgumentException(NotCompressed))
    else
      Ok(NewObjectConstant(c.obj, false))
  }

  /** The identity hash of the wrapped object, as given by the runtime's
      identity-hash capability `identityHash`. */
  function IdentityHashCode(c: Constant, identityHash: HeapObject -> JavaInt): (h: JavaInt)
    requires c.Obj?
    ensures h == identityHash(c.obj)
  {
    identityHash(c.obj)
  }

  // ---------------------------------------------------------------------------
  // Round trips and flag independence

  /** Compressing and then uncompressing gives back the same constant. */
  lemma CompressUncompressRoundTrip(x: Constant)
    requires x.Obj? && !x.compressed
    ensures Compress(x).Ok?
    ensures Uncompress(Compress(x).value) == Ok(x)
  {
  }

  /** Uncompressing and then compressing gives back the same constant. */
  lemma UncompressCompressRoundTrip(y: Constant)
    requires y.Obj? && y.compressed
    ensures Uncompress(y).Ok?
    ensures Compress(Uncompress(y).value) == Ok(y)
  {
  }

  /** A second `Compress` in a row always fails. */
  lemma CompressTwiceFails(x: Constant)
    requires x.Obj?
    ensures Compress(x).Ok? ==>
      Compress(Compress(x).value) == Err(IllegalArgumentException(AlreadyCompressed))
  {
  }

  /** The identity hash does not depend on the encoding: it is the same for
      both constants `ForObject` builds for an object, and it survives every
      successful transition. */
  lemma IdentityHashIgnoresCompression(o: HeapObject, c: Constant, identityHash: HeapObject -> JavaInt)
    requires c.Obj?
    ensures IdentityHashCode(ForObject(o, false), identityHash)
         == IdentityHashCode(ForObject(o, true), identityHash)
    ensures Compress(c).Ok? ==>
      IdentityHashCode(Compress(c).value, identityHash) == IdentityHashCode(c, identityHash)
    ensures Uncompress(c).Ok? ==>
      IdentityHashCode(Uncompress(c).value, identityHash) == IdentityHashCode(c, identityHash)
  {
  }

  /** Any two object constants for the same object have the same identity
      hash, whatever their flags and however they were built. */
  lemma HashOnlyObject(c: Constant, d: Constant, identityHash: HeapObject -> JavaInt)
    requires c.Obj? && d.Obj? && c.obj == d.obj
    ensures IdentityHashCode(c, identityHash) == IdentityHashCode(d, identityHash)
  {
  }

  /** Constants for two distinct objects differ, even under the same encoding:
      the object is compared by identity. Constants for one object under the
      two encodings differ too. */
  lemma DistinctConstants(a: HeapObject, b: HeapObject, compressed: bool)
    ensures a != b ==> ForObject(a, compressed) != ForObject(b, compressed)
    ensures ForObject(a, compressed) != ForObject(a, !compressed)
    ensures CompressedNull != NullPointer
  {
  }

  // ---------------------------------------------------------------------------
  // Chains of encoding transitions

  /** One encoding transition a compiler may ask of a constant. */
  datatype Transition = CompressStep | UncompressStep

  function Apply(c: Constant, t: Transition): (r: Result<Constant>)
    requires c.Obj?
    ensures r.Ok? ==> r.value.Obj?
  {
    match t
    case CompressStep => Compress(c)
    case UncompressStep => Uncompress(c)
  }

  /** Applies the transitions in order, stopping at the first exception. */
  function ApplyAll(c: Constant, ts: seq<Transition>): (r: Result<Constant>)
    requires c.Obj?
    ensures r.Ok? ==> r.value.Obj?
    decreases |ts|
  {
    if ts == [] then Ok(c)
    else
      match Apply(c, ts[0])
      case Err(e) => Err(e)
      case Ok(next) => ApplyAll(next, ts[1..])
  }

  /** The only transition valid at step `i` of a chain that starts in the
      given encoding: the encodings must alternate. */
  function ExpectedStep(startCompressed: bool, i: nat): Transition
  {
    if (i % 2 == 0) == startCompressed then UncompressStep else CompressStep
  }

  predicate Alternating(startCompressed: bool, ts: seq<Transition>)
  {
    forall i :: 0 <= i < |ts| ==> ts[i] == ExpectedStep(startCompressed, i)
  }

  lemma ExpectedStepShift(startCompressed: bool, i: nat)
    ensures ExpectedStep(!startCompressed, i) == ExpectedStep(startCompressed, i + 1)
  {
  }

  /** A chain of transitions succeeds exactly when it alternates, starting with
      the transition away from the constant's current encoding. A successful
      chain keeps the object and ends in the encoding given by the parity of
      its length; a failing one fails with IllegalArgumentException. */
  lemma {:induction false} ApplyAllSucceedsIffAlternating(c: Constant, ts: seq<Transition>)
    requires c.Obj?
    ensures ApplyAll(c, ts).Ok? <==> Alternating(c.compressed, ts)
    ensures ApplyAll(c, ts).Ok? ==>
      && ApplyAll(c, ts).value.Obj?
      && ApplyAll(c, ts).value.obj == c.obj
      && ApplyAll(c, ts).value.compressed == (if |ts| % 2 == 0 then c.compressed else !c.compressed)
    ensures ApplyAll(c, ts).Err? ==> ApplyAll(c, ts).error.IllegalArgumentException?
    decreases |ts|
  {
    if ts != [] {
      match Apply(c, ts[0])
      case Err(e) =>
        assert ts[0] != ExpectedStep(c.compressed, 0);
      case Ok(next) =>
        assert ts[0] == ExpectedStep(c.compressed, 0);
        assert next.compressed == !c.compressed;
        ApplyAllSucceedsIffAlternating(next, ts[1..]);
        forall i | 0 <= i < |ts[1..]|
          ensures ExpectedStep(next.compressed, i) == ExpectedStep(c.compressed, i + 1)
        {
          ExpectedStepShift(c.compressed, i);
        }
        if Alternating(c.compressed, ts) {
          assert forall i :: 0 <= i < |ts[1..]| ==> ts[1..][i] == ts[i + 1];
        }
        if Alternating(next.compressed, ts[1..]) {
          forall i | 0 <= i < |ts| ensures ts[i] == ExpectedStep(c.compressed, i) {
            if i > 0 {
              assert ts[i] == ts[1..][i - 1];
            }
          }
        }
    }
  }

  /** Every object constant reachable by a chain of transitions has the same
      identity hash as the one the chain started from. */
  lemma {:induction false} IdentityHashAlongChain(c: Constant, ts: seq<Transition>, identityHash: HeapObject -> JavaInt)
    requires c.Obj?
    ensures ApplyAll(c, ts).Ok? ==>
      ApplyAll(c, ts).value.Obj? &&
      IdentityHashCode(ApplyAll(c, ts).value, identityHash) == IdentityHashCode(c, identityHash)
  {
    ApplyAllSucceedsIffAlternating(c, ts);
  }
}
