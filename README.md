# Project requests of the rbfx editor, modelled in Dafny

The rbfx editor passes user intents (open a resource, inspect resources,
inspect scene nodes and components) to its subsystems as *project
requests*. `Source/Tools/Editor/Project/ProjectRequest.h` declares them.
This project models the three parts of that header that have behaviour of
their own:

- **The callback queue of every request** (`ProjectRequest`), in module
  `CallbackQueue`. Listeners queue opaque callbacks with an `int` priority
  (default 0). The issuer invokes the pending callback of highest priority.
  The class `ProjectRequest` keeps the pending `CallbackDesc` entries as a
  multiset. `InvokeProcessCallback` removes some entry of maximal priority
  and returns it; the caller then runs that callback. Repeated invocations
  without new pushes are described by the predicate `IsDrain`. The lemmas
  prove that such a run reports every entry exactly once, in non-increasing
  priority order, and that a run of this kind always exists.
- **The `FileResourceDesc` predicates**, in module `FileResource`.
  `IsValidFile` holds when the resource resolved to a file name.
  `HasExtension` is a case-insensitive suffix test on the resource name.
  `HasAnyExtension` is the list form. The model's suffix test compares
  character by character from the end; that order is the model's choice,
  since the body of `ends_with` is not part of this model. A lemma ties
  it to an independent definition: lower-case both strings, then take the
  tail of the name.
- **`InspectNodeComponentRequest`**, in module `NodeComponentRequest`.
  Its constructor drops the null pointers of each input (`KeepNonNull`,
  a loop that appends the survivors). It then copies them into an array and
  sorts it in place (`SortIds`, an insertion sort standing for `ea::sort`).
  The result has no null and is sorted. It is a permutation of the
  non-null inputs, with repeats kept. Sorted permutations are unique, so
  the result does not depend on the order of the input. `IsEmpty`,
  `HasNodes` and `HasComponents` are the derived predicates.

Pointers and `WeakPtr`s are integers, with `Null` (0) for the null pointer.
Callbacks are natural-number identities.

Nothing in the constructor removes duplicates (ProjectRequest.h:142-154).
The model keeps every repeat: `multiset(nodes) ==
multiset(nodesIn)[Null := 0]`.

## Model

| member | source | states |
|---|---|---|
| `CallbackQueue.ProjectRequest.constructor` | Source/Tools/Editor/Project/ProjectRequest.h:47 | a new request has no pending callbacks |
| `CallbackQueue.ProjectRequest.QueueProcessCallback` | Source/Tools/Editor/Project/ProjectRequest.h:49-50 | adds exactly one pending entry `(callback, priority)`, priority 0 when omitted; every earlier entry stays pending |
| `CallbackQueue.ProjectRequest.InvokeProcessCallback` | Source/Tools/Editor/Project/ProjectRequest.h:51-63 | on a non-empty queue removes exactly one entry, whose priority is at least that of every other entry pending before and after; on an empty queue changes nothing and reports nothing |
| `CallbackQueue.HighestExists` | Source/Tools/Editor/Project/ProjectRequest.h:51-52 | every non-empty queue has an entry of highest priority, so an invocation can always proceed |
| `CallbackQueue.HighestPriorityIsUnique` | Source/Tools/Editor/Project/ProjectRequest.h:55-61 | any two candidates for the next invocation have the same priority; only the order among ties is open |
| `CallbackQueue.PushedAboveAllIsNext` | Source/Tools/Editor/Project/ProjectRequest.h:49-52 | a callback queued with a priority above all pending ones is the one and only candidate for the next invocation |
| `CallbackQueue.DrainIsPermutation` | Source/Tools/Editor/Project/ProjectRequest.h:51-63 | repeated invocations with no new pushes report every queued entry exactly once |
| `CallbackQueue.DrainIsNonIncreasing` | Source/Tools/Editor/Project/ProjectRequest.h:51-63 | repeated invocations with no new pushes report callbacks in non-increasing priority order |
| `CallbackQueue.DrainExists` | Source/Tools/Editor/Project/ProjectRequest.h:51-63 | from any set of pending entries, invocations can go on until the queue is empty |
| `FileResource.ToLower` | Source/Tools/Editor/Project/ProjectRequest.h:81 | the case folding of the comparison: ASCII upper-case letters map to lower case, all else is kept, and no upper-case letter remains |
| `FileResource.EndsWithIgnoringCase` | Source/Tools/Editor/Project/ProjectRequest.h:81 | the `ends_with(extension, false)` call, compared from the end one character at a time; a match implies the extension is no longer than the name |
| `FileResource.EndsWithIgnoringCaseIsLowerSuffix` | Source/Tools/Editor/Project/ProjectRequest.h:81 | the end-to-start comparison of `ends_with(extension, false)` holds iff the extension is no longer than the name and the lower-cased extension is the tail of the lower-cased name |
| `FileResource.CaseOfEitherSideIsIrrelevant` | Source/Tools/Editor/Project/ProjectRequest.h:81 | changing the case of letters in the name or in the extension never changes the answer |
| `FileResource.ExactSuffixMatches` | Source/Tools/Editor/Project/ProjectRequest.h:81 | a name that ends with the extension exactly also matches it |
| `FileResource.EmptyCases` | Source/Tools/Editor/Project/ProjectRequest.h:81 | the empty extension matches every name; an empty name matches no non-empty extension |
| `FileResource.MixedCaseExample` | Source/Tools/Editor/Project/ProjectRequest.h:80-81 | `"foo.XML"` has extension `".xml"`, `"foo.xml"` has `".XML"`, and `"foo.xml"` does not have `".json"` |
| `FileResource.FileResourceDesc.IsValidFile` | Source/Tools/Editor/Project/ProjectRequest.h:74 | the source's expression `!fileName_.empty()` |
| `FileResource.FileResourceDesc.HasExtension` | Source/Tools/Editor/Project/ProjectRequest.h:81 | the source's expression `resourceName_.ends_with(extension, false)`, the case-insensitive suffix test on the resource name |
| `FileResource.FileResourceDesc.HasAnyExtension` | Source/Tools/Editor/Project/ProjectRequest.h:80-83 | the list form holds iff some element of the list is an extension of the resource name |
| `FileResource.AnyExtensionIsMonotone` | Source/Tools/Editor/Project/ProjectRequest.h:82-83 | a match in either part of a list is a match of the whole list |
| `FileResource.DefaultDesc` | Source/Tools/Editor/Project/ProjectRequest.h:70-74 | a default-constructed descriptor is not a valid file and has no non-empty extension |
| `NodeComponentRequest.NonNull` | Source/Tools/Editor/Project/ProjectRequest.h:142-151 | the filtered list holds no null and has exactly the non-null elements of the input, each as often as in the input |
| `NodeComponentRequest.NonNullIsEmptyIffAllNull` | Source/Tools/Editor/Project/ProjectRequest.h:142-151 | nothing survives the filter iff every input is null |
| `NodeComponentRequest.KeepNonNull` | Source/Tools/Editor/Project/ProjectRequest.h:142-151 | the appending loop produces exactly the non-null inputs in input order |
| `NodeComponentRequest.SortIds` | Source/Tools/Editor/Project/ProjectRequest.h:153-154 | the in-place sort leaves the array ascending and a permutation of what it held |
| `NodeComponentRequest.InsertAt` | Source/Tools/Editor/Project/ProjectRequest.h:153-154 | one step of the sort: an ascending prefix grows by one element, the rest of the array is untouched, and the elements are only permuted |
| `NodeComponentRequest.CollectSorted` | Source/Tools/Editor/Project/ProjectRequest.h:142-154 | filtering then sorting one input yields an ascending list with no null that is a permutation of the non-null inputs; it is non-empty iff some input is non-null |
| `NodeComponentRequest.SortedPermutationIsUnique` | Source/Tools/Editor/Project/ProjectRequest.h:153-154 | two ascending lists with the same elements, counted with multiplicity, are equal |
| `NodeComponentRequest.InputOrderIsIrrelevant` | Source/Tools/Editor/Project/ProjectRequest.h:142-154 | inputs that are permutations of each other give the same sorted list |
| `NodeComponentRequest.InspectNodeComponentRequest.constructor` | Source/Tools/Editor/Project/ProjectRequest.h:138-155 | `nodes` and `components` hold no null, are sorted, and are permutations of the non-null inputs with repeats kept; `HasNodes`/`HasComponents` hold iff some input of that kind is non-null; the callback queue starts empty |
| `NodeComponentRequest.InspectNodeComponentRequest.IsEmpty` | Source/Tools/Editor/Project/ProjectRequest.h:160-162 | `IsEmpty` holds iff neither `HasNodes` nor `HasComponents` holds |
| `NodeComponentRequest.InspectNodeComponentRequest.HasNodes` | Source/Tools/Editor/Project/ProjectRequest.h:161 | the source's expression `!nodes_.empty()` |
| `NodeComponentRequest.InspectNodeComponentRequest.HasComponents` | Source/Tools/Editor/Project/ProjectRequest.h:162 | the source's expression `!components_.empty()` |

## Left out

- CallbackQueue.ProjectRequest.InvokeProcessCallback: the header does not show that the invoked entry is popped; the model assumes it is removed.
- CallbackQueue.ProjectRequest.InvokeProcessCallback: the behaviour on an empty queue is not in the header; the model assumes a no-op.
- CallbackQueue.ProjectRequest.InvokeProcessCallback: it returns the removed entry instead of running the callback. Callbacks are arbitrary `ea::function<void()>` values, so their effects, including re-entrant queueing, are not modelled.
- CallbackQueue.ProjectRequest.InvokeProcessCallback: the tie-break among equal priorities and the body of `CallbackDesc::operator<` are not visible. The model takes any highest entry and asserts no order among ties. It assumes `operator<` compares priorities only.
- The binary-heap layout of `ea::priority_queue` is not modelled: the pending entries are a multiset.
- Invoking an empty `ea::function` is not modelled; callbacks are identities.
- NodeComponentRequest.SortIds: it is an insertion sort with the contract of `ea::sort`. The introsort of EASTL is not visible.
- FileResource.ToLower: only ASCII letters are folded. The case folding of the string library's `ends_with` is not visible.
- FileResource.EndsWithIgnoringCase: a Dafny `string` is a sequence of Unicode characters, while `ea::string` holds bytes. Because only ASCII letters are folded, the two agree on valid UTF-8 names.
- FileResource.FileResourceDesc.HasAnyExtension: the bodies of the two list overloads are not shown; "true if any element matches" is read from the comment before them.
- `FileResourceDesc(Context*, resourceName)`, `GetBinaryFile`, `GetXMLFile`, `GetJSONFile` and the cached `xmlFile_`/`jsonFile_`: file resolution, file I/O and engine parsers are outside the model.
- `GetTypeHint` and `GetContext`: the first needs XML parsing of the file; the second returns an engine object.
- `InspectResourceRequest` and `GetSortedResourceNames`: the constructor resolves files, and the body of the sort is not part of this model.
- `OpenResourceRequest`: only a constructor that combines a request with a descriptor.
- The engine object machinery (`Context`, `Object`, `URHO3D_OBJECT`, `SharedPtr`) and the liveness tracking of `WeakPtr`: a weak pointer is its address.
- Inheritance from `ProjectRequest` is modelled by composition: `InspectNodeComponentRequest.request` is the request's queue.
- The main-thread-only rule is a usage discipline and is not modelled.
