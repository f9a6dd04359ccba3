# Flattening of exception message arguments

This project models the argument handling of `MathIllegalArgumentException`, the base class of the
exceptions that report a violated precondition. Its constructor takes a message pattern and a
variable-length argument array. It stores the pattern unchanged in a final field. It stores the
arguments in a second final field, as a new array made from the flattened argument list.

Flattening walks the argument array from left to right. An element that is an `Object[]` is replaced
by the flattened form of its own elements. Every other element is appended as it is. This includes
`null` and primitive arrays such as `double[]`, since neither is an `instanceof Object[]`.

The model, in `math_illegal_argument_exception.dfy` (module `MathException`):

- `Arg` is one argument: `Null`, `Leaf(id)` for any object that is not an `Object[]` (known by its
  identity), or `Arr(items)` for an array of references, such as an `Object[]` or a `String[]`.
- `Flattened` is the specification: the non-array leaves in depth-first, left-to-right order.
- `MathIllegalArgumentException.Flatten` is the loop of the Java method. It appends a leaf, or the
  result of its recursive call for a nested array, to a local list. It is proved equal to `Flattened`.
- The class `MathIllegalArgumentException` has the two final fields as `const`s. Its constructor
  stores the pattern and a fresh array holding `Flattened(args)`.
- `LeafCount` counts leaves at every depth, independently of `Flattened` (from the last element
  backwards). `OccursIn` says that a leaf is reachable at some depth. `IsFlat` says that no element
  is an array.

## Model

| member | source | states |
|---|---|---|
| `MathException.Flattened` | src/main/java/org/apache/commons/math/exception/MathIllegalArgumentException.java:73-83 | No element of the flattened list is an array: nested arrays are always recursed into, never appended |
| `MathException.MathIllegalArgumentException.Flatten` | src/main/java/org/apache/commons/math/exception/MathIllegalArgumentException.java:73-83 | The loop that appends leaves and recursively flattened nested arrays to a fresh list returns exactly the depth-first, left-to-right flattening of its input |
| `MathException.MathIllegalArgumentException.constructor` | src/main/java/org/apache/commons/math/exception/MathIllegalArgumentException.java:38-52 | The pattern is stored unchanged, and the arguments field is a newly allocated array whose contents are the flattened arguments |
| `MathException.FlattenedAppend` | src/main/java/org/apache/commons/math/exception/MathIllegalArgumentException.java:74-81 | Flattening distributes over concatenation: flattening `a + b` gives the flattening of `a` followed by that of `b` |
| `MathException.FlattenedSplice` | src/main/java/org/apache/commons/math/exception/MathIllegalArgumentException.java:75-81 | Order is preserved: element `i` contributes itself (a leaf) or its own flattening (an array), after the contributions of the elements before it and before those of the elements after it |
| `MathException.FlattenedKeepsLeaf` | src/main/java/org/apache/commons/math/exception/MathIllegalArgumentException.java:76-79 | A non-array element, including null and a primitive array, appears unchanged in the result, at the index equal to the number of leaves before it |
| `MathException.FlattenedLength` | src/main/java/org/apache/commons/math/exception/MathIllegalArgumentException.java:73-83 | The result length equals the number of non-array leaves at all nesting depths, so an empty input gives an empty list |
| `MathException.FlattenedEmptyArray` | src/main/java/org/apache/commons/math/exception/MathIllegalArgumentException.java:76-77 | An empty nested array contributes nothing to the result |
| `MathException.FlattenedMembers` | src/main/java/org/apache/commons/math/exception/MathIllegalArgumentException.java:73-83 | A value is in the result if and only if it is a non-array leaf reachable in the input at some depth |
| `MathException.FlattenedIdentity` | src/main/java/org/apache/commons/math/exception/MathIllegalArgumentException.java:75-81 | Flattening returns its input element for element if and only if the input holds no nested array |
| `MathException.FlattenedIdempotent` | src/main/java/org/apache/commons/math/exception/MathIllegalArgumentException.java:73-83 | Flattening an already flattened list returns it unchanged |

## Left out

- `getMessage` and `getLocalizedMessage` (MathIllegalArgumentException.java:56-64) are not modelled. They delegate to `MessageFactory.buildMessage` and to `Locale`. That message factory is not part of this model, and localization is outside it.
- `Localizable` is reduced to a reference: `NullPattern` or `Pattern(id)`, known by its identity. The constructor only stores it and never inspects it.
- Cyclic arguments are not modelled. An `Object[]` that contains itself, directly or indirectly, makes the Java recursion run until the stack overflows. Dafny datatypes are finite and acyclic, so the model assumes that nesting is well founded.
- Resource limits are not modelled. In Java, finite but very deep nesting also ends in `StackOverflowError`, and `addAll` or `toArray` fail once the flattened list exceeds the maximum array size, which shared subarrays can reach. The model returns the flattened result in both cases.
- Arrays are modelled as immutable sequences. Java flattens an array once for each position it occupies, so an array reachable twice gives its leaves twice, and the model does the same. What the model cannot express is that both positions hold the same object. That matters only if the array changes while flattening runs. Flattening happens only during construction, so later changes to the caller's arrays do not affect `arguments`. `toArray` copies the result into a new array, and the model keeps that copy as a fresh `array`.
- A `null` varargs array itself (a call with `(Object[]) null`) is not modelled. In Java the loop over it throws `NullPointerException`. The model's `args` is a sequence, so it is never null. A `null` element inside the array is modelled, as `Null`.
- `flatten` is a private instance method that uses no instance state. It is modelled as a static method of the class, so that the constructor can call it before the object is complete.
- The rest of the repository is not part of this model. This includes the least-squares evaluation statistics (`AbstractEvaluation.java`: cost, RMS, covariances, sigma), the Levenberg-Marquardt optimizer and its tests. Cost and RMS are floating-point numerics (square roots and dot products). Covariances and sigma invert Jᵗ·J through a QR decomposition class that this model does not cover. The tests are floating-point model functions driving the optimizer. The optimizer's source is not modelled.
