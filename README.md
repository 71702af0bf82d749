# Direct HotSpot object constants

A model of `DirectHotSpotObjectConstantImpl`, the JVMCI value that names a
heap object as a compile-time constant for a JIT compiler and tags it with a
compression flag: narrow (compressed) or wide (uncompressed) reference
encoding.

The module `DirectHotSpotObjectConstant` (file `object_constant.dfy`) holds:

- `HeapObject`, a class without fields standing for `java.lang.Object`.
  Dafny compares class references by identity, so two constants for two
  distinct objects differ even if the objects look alike. A possibly-null
  object is a `HeapObject?`.
- `Constant`, with variants `Null(compressed)` for the two null singletons
  (`CompressedNull` for `HotSpotCompressedNullConstant.COMPRESSED_NULL`,
  `NullPointer` for `JavaConstant.NULL_POINTER`) and
  `Obj(obj, compressed)` for a direct object constant. `obj` has the
  non-null type `HeapObject`. The private constructor's `assert object != null`
  becomes the precondition of `NewObjectConstant`. So an object constant never
  wraps null.
- The exceptions as `Error`: `NullPointerException`, and
  `IllegalArgumentException` with a tag for the message prefix
  ("already compressed" or "not compressed").
- The factories `ForObject` and `ForNonNullObject`, the transitions `Compress`
  and `Uncompress`, and `IdentityHashCode`. They are functions, because every
  Java method here returns a new immutable instance or a shared singleton.
- `System.identityHashCode` as a parameter `identityHash: HeapObject -> JavaInt`.
  It is an uninterpreted capability of the runtime. `JavaInt` is Java's 32-bit
  `int` range.
- `ApplyAll`, the chain of `compress`/`uncompress` calls that a compiler makes
  to match the encoding each code site needs. It stops at the first exception.
  Lemmas about it generalise the round trips and the double-compress failure.
  `Apply`, `ApplyAll`, `ExpectedStep` and `Alternating` model how a caller
  chains the two methods; they are not methods of the class. Their rows cite
  the `compress`/`uncompress` lines they are built from.

`Compress`, `Uncompress` and `IdentityHashCode` require an `Obj` constant,
because they are methods of the object-constant class alone. The null
constants have their own methods, which are not part of this model.

## Model

| member | source | states |
|---|---|---|
| DirectHotSpotObjectConstant.NewObjectConstant | src/jdk.internal.vm.ci/share/classes/jdk/vm/ci/hotspot/DirectHotSpotObjectConstantImpl.java:44-50 | only a non-null object can be wrapped; the result is an object constant holding exactly that object and that compression flag |
| DirectHotSpotObjectConstant.ForObject | src/jdk.internal.vm.ci/share/classes/jdk/vm/ci/hotspot/DirectHotSpotObjectConstantImpl.java:29-35 | the result is a null constant exactly when the object is null; null gives the compressed-null singleton when compressed and the null pointer constant otherwise; a non-null object gives an object constant wrapping it; the flag always matches the request |
| DirectHotSpotObjectConstant.ForNonNullObject | src/jdk.internal.vm.ci/share/classes/jdk/vm/ci/hotspot/DirectHotSpotObjectConstantImpl.java:37-42 | fails exactly when the object is null, and then with NullPointerException, for either flag; otherwise gives an object constant equal to what `ForObject` gives |
| DirectHotSpotObjectConstant.Compress | src/jdk.internal.vm.ci/share/classes/jdk/vm/ci/hotspot/DirectHotSpotObjectConstantImpl.java:52-58 | fails exactly when the constant is already compressed, with IllegalArgumentException "already compressed"; otherwise gives an object constant for the same object with the flag set |
| DirectHotSpotObjectConstant.Uncompress | src/jdk.internal.vm.ci/share/classes/jdk/vm/ci/hotspot/DirectHotSpotObjectConstantImpl.java:60-66 | fails exactly when the constant is not compressed, with IllegalArgumentException "not compressed"; otherwise gives an object constant for the same object with the flag cleared |
| DirectHotSpotObjectConstant.CompressUncompressRoundTrip | src/jdk.internal.vm.ci/share/classes/jdk/vm/ci/hotspot/DirectHotSpotObjectConstantImpl.java:50-66 | for an uncompressed object constant, compress then uncompress succeeds and gives back a constant equal to it |
| DirectHotSpotObjectConstant.UncompressCompressRoundTrip | src/jdk.internal.vm.ci/share/classes/jdk/vm/ci/hotspot/DirectHotSpotObjectConstantImpl.java:50-66 | for a compressed object constant, uncompress then compress succeeds and gives back a constant equal to it |
| DirectHotSpotObjectConstant.CompressTwiceFails | src/jdk.internal.vm.ci/share/classes/jdk/vm/ci/hotspot/DirectHotSpotObjectConstantImpl.java:53-57 | compressing the result of a successful compress fails with "already compressed" |
| DirectHotSpotObjectConstant.IdentityHashCode | src/jdk.internal.vm.ci/share/classes/jdk/vm/ci/hotspot/DirectHotSpotObjectConstantImpl.java:68-71 | the result is the runtime identity hash of the wrapped object |
| DirectHotSpotObjectConstant.HashOnlyObject | src/jdk.internal.vm.ci/share/classes/jdk/vm/ci/hotspot/DirectHotSpotObjectConstantImpl.java:68-71 | any two object constants for the same object have the same identity hash, whatever their flags |
| DirectHotSpotObjectConstant.IdentityHashIgnoresCompression | src/jdk.internal.vm.ci/share/classes/jdk/vm/ci/hotspot/DirectHotSpotObjectConstantImpl.java:68-71 | the identity hash depends only on the wrapped object: equal for both encodings of one object, and unchanged by a successful compress or uncompress |
| DirectHotSpotObjectConstant.DistinctConstants | src/jdk.internal.vm.ci/share/classes/jdk/vm/ci/hotspot/DirectHotSpotObjectConstantImpl.java:29-34 | constants for distinct objects differ, constants for one object under the two encodings differ, and the two null singletons differ |
| DirectHotSpotObjectConstant.ApplyAllSucceedsIffAlternating | src/jdk.internal.vm.ci/share/classes/jdk/vm/ci/hotspot/DirectHotSpotObjectConstantImpl.java:52-66 | a chain of compress/uncompress calls succeeds if and only if it alternates starting away from the current encoding; on success it keeps the object and ends in the encoding given by the chain's length parity; on failure the exception is IllegalArgumentException |
| DirectHotSpotObjectConstant.IdentityHashAlongChain | src/jdk.internal.vm.ci/share/classes/jdk/vm/ci/hotspot/DirectHotSpotObjectConstantImpl.java:68-71 | every constant reached by a successful chain of transitions has the identity hash of the starting constant |

## Left out

- `System.identityHashCode` is a JVM intrinsic. It is a parameter of `IdentityHashCode`, and nothing is assumed about it beyond being a function of the object.
- The exception messages append the constant's `toString`. Only the exception kind and the fixed prefix are modelled.
- The superclass `HotSpotObjectConstantImpl` is not part of this model beyond storing the compression flag. Its other methods, and those of the two null constants, are left out.
- Datatype equality stands for constant equality (same object by identity, same flag). No `equals`/`hashCode` override appears in the modelled class.
- Allocation is not modelled: each transition and each non-null factory call builds a new Java instance, but the model does not tell a freshly allocated instance from an existing one with the same object and flag. Java reference comparison (`==`) between constants is not modelled, so the round-trip lemmas state equality of object and flag, not identity of instances.
- Garbage-collector rooting, object relocation, safe publication of the null singletons and code emission are runtime concerns with no logic in this class.
- `test/lib-test/jdk/test/lib/AssertsTest.java` drives a foreign assertion library and has no logic of this class to model.
