# Abort list and rectangle bounds of the ACTS propagator, in Dafny

This project models two small parts of the ACTS track-propagation toolkit.

**The abort-condition evaluator** (`abort_list.dfy`, module `AbortList`). The
propagator stops stepping when one of an ordered list of abort conditions
fires. The evaluator walks the list in declaration order as a
short-circuiting OR: the first condition that answers true ends the walk, and
an empty list never aborts. A capability flag, fixed when the list is
composed, gives each condition its call shape. A cache-only condition is
called with the propagation cache alone. A result-consuming condition is
called with the result slice of the observer it declares, plus the cache.
The cache is passed by reference, so a condition may change it for the
conditions after it; the evaluator only forwards it.

In the model a condition is `CacheOnly(id)` or `UsesResult(id, observer)`.
The result bundle is a map from observer tag to slice. How the conditions
behave is a parameter `eval` that maps a call to a `Verdict(abort, cache)`.
`Check` is the recursive evaluator with the three cases of the source. Beside
it is a reference definition that calls every condition in turn
(`CacheBefore`, `CallAt`, `AbortsAt`, `FirstAbort`). `Evaluate` is a loop
version that logs each condition it invokes. It is there to state the
short-circuit and ordering properties.

**Rectangle bounds** (`rectangle_bounds.dfy`, module `Surfaces`). A
`RectangleBounds` object holds a bound-value vector `[halfX, halfY]`. Its
constructors and assignment write that vector in place. Equality first checks
that the other bounds are rectangle bounds. `MinDistance` is the signed
distance from a local point to the rectangle: non-positive inside, positive
outside. Numbers are `real`. The C library `sqrt` is a parameter of
`MinDistance`; each lemma that needs it requires it to return the
non-negative root of the one value it is applied to.

## Model

| member | source | states |
|---|---|---|
| `AbortList.CallFor` | Core/include/ACTS/Propagator/detail/abort_list_implementation.hpp:21-44 | A cache-only condition is called with the cache alone and gets no result slice. A result-consuming condition is called with the slice of its own declared observer and the cache. The call carries the condition's identity and the cache unchanged. |
| `AbortList.ShapeFixedByFlag` | Core/include/ACTS/Propagator/detail/abort_list_implementation.hpp:58-60 | The call shape depends only on the condition's capability flag, never on the bundle or the cache. |
| `AbortList.Check` | Core/include/ACTS/Propagator/detail/abort_list_implementation.hpp:47-98 | An empty list answers "do not abort" and leaves the cache as it was. |
| `AbortList.EmptyListNeverAborts` | Core/include/ACTS/Propagator/detail/abort_list_implementation.hpp:90-98 | For every bundle and cache, the empty list answers false and returns the cache untouched. |
| `AbortList.SingleConditionVerdict` | Core/include/ACTS/Propagator/detail/abort_list_implementation.hpp:75-88 | A one-condition list answers exactly that condition's verdict, dispatched by its flag. |
| `AbortList.HeadOrRest` | Core/include/ACTS/Propagator/detail/abort_list_implementation.hpp:50-72 | For a non-empty list, the head is called first on the incoming cache. The rest is evaluated only if the head does not abort, on the cache the head left. The answer is head OR rest. |
| `AbortList.SkipNonAborting` | Core/include/ACTS/Propagator/detail/abort_list_implementation.hpp:65-69 | If none of the first i conditions aborts, evaluating the whole list equals evaluating the remaining list on the cache those i conditions left. |
| `AbortList.CheckStopsAtFirstAbort` | Core/include/ACTS/Propagator/detail/abort_list_implementation.hpp:65-71 | The evaluator answers "abort" with the cache the first aborting condition left. If no condition aborts, it answers "do not abort" with the cache the last condition left. |
| `AbortList.CheckIsDisjunction` | Core/include/ACTS/Propagator/detail/abort_list_implementation.hpp:68-69 | The answer is true iff some condition, reached in order, answers true. |
| `AbortList.CheckReadsOnlyDeclaredSlices` | Core/include/ACTS/Propagator/detail/abort_list_implementation.hpp:21-44 | Two bundles that agree on the slices of the declared observers give the same answer and the same cache. A list of cache-only conditions therefore ignores the bundle. |
| `AbortList.Evaluate` | Core/include/ACTS/Propagator/detail/abort_list_implementation.hpp:50-98 | Gives the same answer and cache as `Check`. It invokes exactly conditions 0..k, where k is the first that aborts, or all of them when none does. It invokes them in declaration order, each with the call its flag selects on the cache the previous one left. |
| `Surfaces.RectangleBounds.Default` | Core/src/Surfaces/RectangleBounds.cpp:19-22 | The bound-value vector has length bv_length and every entry is 0. |
| `Surfaces.RectangleBounds.constructor` | Core/src/Surfaces/RectangleBounds.cpp:25-30 | `halex` is stored at bv_halfX and `haley` at bv_halfY. Every other entry is 0 and the length is bv_length. |
| `Surfaces.RectangleBounds.Copy` | Core/src/Surfaces/RectangleBounds.cpp:33-36 | The copy's bound values equal the original's. |
| `Surfaces.RectangleBounds.Assign` | Core/src/Surfaces/RectangleBounds.cpp:43-48 | Afterwards the bound values equal the source's. Self-assignment changes nothing, a distinct source is left unchanged, and the object itself is returned. |
| `Surfaces.RectangleBounds.Equals` | Core/src/Surfaces/RectangleBounds.cpp:50-58 | Bounds of another shape are never equal. For rectangle bounds, equality holds iff the vectors have the same length and agree entry by entry. |
| `Surfaces.NotEqualToOtherShape` | Core/src/Surfaces/RectangleBounds.cpp:53-56 | Rectangle bounds differ from another shape's bounds even when the numbers are the same. |
| `Surfaces.RectangleEquality` | Core/src/Surfaces/RectangleBounds.cpp:50-58 | Among rectangle bounds, equality is reflexive and symmetric, and holds iff the bound-value vectors are equal. |
| `Surfaces.RectangleBounds.MinDistance` | Core/src/Surfaces/RectangleBounds.cpp:60-73 | When dx ≤ 0 or dy ≤ 0 the result is the larger of dx = \|x\| − halfX and dy = \|y\| − halfY. A point of the closed rectangle gets a non-positive distance. |
| `Surfaces.CornerBranch` | Core/src/Surfaces/RectangleBounds.cpp:72 | When dx > 0 and dy > 0 the result is sqrt(dx² + dy²). |
| `Surfaces.CornerDistance` | Core/src/Surfaces/RectangleBounds.cpp:72 | Beyond a corner, with a correct square root, the distance squares to dx² + dy². It is at least dx and at least dy, and it is positive. |
| `Surfaces.InsideIffNonPositive` | Core/src/Surfaces/RectangleBounds.cpp:63-72 | The distance is ≤ 0 exactly when \|x\| ≤ halfX and \|y\| ≤ halfY, and > 0 for every point outside. |
| `Surfaces.MirrorSymmetric` | Core/src/Surfaces/RectangleBounds.cpp:63-64 | Negating x, or negating y, leaves the distance unchanged. |

## Left out

- The behaviour of the individual abort conditions is not modelled. They are written elsewhere, so the model takes them as the parameter `eval`.
- Compile-time machinery is replaced by explicit tags: `std::get` by type on the condition tuple, `condition_uses_result_type`, `observer_type_t` and `result_type_t`. The capability flag is the constructor of `Condition`, and the result type of an observer is its tag in the bundle. A slice missing from the bundle is a compile error in the source; here it is the precondition `Provides`.
- `AbortList.Evaluate` has no counterpart in the source. The source recurses; the loop and its log exist only to state which conditions are invoked and in what order.
- `RectangleBounds::dump` writes to an output stream and is not modelled.
- The destructor and the `PlanarBounds` base-class constructor do nothing visible here and are not modelled.
- `RectangleBounds.hpp` is not part of this model. The model takes bv_halfX = 0, bv_halfY = 1 and bv_length = 2, the enumeration that header declares.
- `.at()` throws `std::out_of_range` on a bad index. That cannot happen here: every object keeps a vector of length bv_length (`Valid`).
- `dynamic_cast` also accepts classes derived from `RectangleBounds`. The model only tells rectangle bounds from the bounds of another shape.
- Surfaces.RectangleBounds.MinDistance: works on `real`, not IEEE doubles, so rounding is not modelled. `fabs` is `Abs`. `sqrt` is a parameter, and the lemmas require it to be the exact non-negative square root at the one value they use.
- `Core/include/ACTS/Tools/ITrackingVolumeHelper.hpp` declares an interface with no behaviour and is not modelled.
- The propagation orchestrator, the surface parameter encoder and the stepping kernel are not part of this model.
