# Action revelation: a verified model

This project models the action revelation of the Feedme server
(`src/actionrevelation.js`). An application uses an action revelation to
reveal an action on one feed. The revelation holds:

- the feed name and feed arguments;
- the feed data as it was before the action, if the caller supplied it;
- a list of feed deltas;
- the feed data as it is after those deltas.

The application calls fourteen delta operations: `set`, `delete`,
`deleteValue`, `prepend`, `append`, `increment`, `decrement`, `toggle`,
`insertFirst`, `insertLast`, `insertBefore`, `insertAfter`, `deleteFirst` and
`deleteLast`. Each call does four things in order:

1. It checks the path.
2. It checks the value argument: either that it is a JSON-expressible value
   (no circular reference, no `undefined`) or that it is a string or a number.
3. It applies the operation's root policy.
4. If old feed data was supplied, it applies the delta to the feed data. The
   delta is then appended to the list.

A call that throws leaves the revelation unchanged.

Modules:

- `Wrappers`: Option, Result and pass/fail outcomes.
- `Errors`: the error kinds (`INVALID_PATH`, `INVALID_VALUE`,
  `INVALID_OPERATION`, `NO_FEED_DATA`) and every error text the source throws.
- `Documents`: JSON feed data, paths and looking a path up.
- `DeltaWriter`: what one delta does to a feed data document, and replaying a
  list of deltas. In the source this is the external `deltaWriter.apply`. It
  is modelled from the behaviour the source's tests pin down.
- `JsValues`: values as a JS caller passes them. Arrays and objects live in a
  heap and are passed by reference, so a value may share a child (a diamond)
  or contain itself (a cycle). This module defines `_hasCircular`,
  `_hasUndefined` and the deep copy of a JSON-expressible value into a
  document, and characterises the two detectors over walks through the heap.
- `Validation`: `_validatePath` and `_validateJsonValue`.
- `Revelation`: the checks of each delta operation (`Admit`) and the
  transition on the abstract state (`Next`), with its invariant: the new feed
  data is the old feed data with the logged deltas replayed. It also holds the
  class `ActionRevelation`. The class keeps the revelation's fields and updates
  them in place. Each of its fourteen methods is proved to make exactly the
  transition `Next` describes.
- `Scenarios`: concrete runs on the inputs the source's tests use.

## Model

| member | source | states |
|---|---|---|
| Validation.PathCheck | src/actionrevelation.js:144-163 | A path is accepted iff it is an array whose first element (if any) is a string and whose later elements are strings or non-negative integers. A non-array fails with "Path must be an array.", a non-string first element with its own message, and otherwise a bad later element (one exists) with the later-element message; each is INVALID_PATH |
| Validation.ValidatePath | src/actionrevelation.js:144-163 | The element-by-element loop returns exactly the verdict of PathCheck |
| Validation.ValidateJsonValue | src/actionrevelation.js:228-248 | Fails with "Circular reference present" iff the value is circular; otherwise with "Must specify a JSON-expressible value" iff it is undefined; otherwise with "Undefined value present" iff it contains undefined; passes iff it is JSON-expressible |
| JsValues.HasCircular | src/actionrevelation.js:174-191 | Never true of a primitive; true of a container already on the ancestor chain |
| JsValues.CircularIffCycle | src/actionrevelation.js:174-191 | `_hasCircular(v)` holds iff some walk from v through the heap comes back to a container already on it; a shared child reached twice is not such a walk |
| JsValues.AcyclicNotCircular | src/actionrevelation.js:174-191 | A heap whose references strictly decrease some ranking (diamonds allowed) never reports a circular reference |
| JsValues.HasUndefined | src/actionrevelation.js:201-214 | Defined on acyclic values only; always true of `undefined` itself; what it means in full is stated by UndefinedIffReachable |
| JsValues.UndefinedIffReachable | src/actionrevelation.js:201-214 | On an acyclic value, `_hasUndefined(v)` holds iff v is undefined or some container reachable from v holds undefined directly |
| JsValues.ToJson | src/actionrevelation.js:262-286 | The payload stored in a delta keeps each primitive as it is, maps an array to an array of the same length whose element i is the copy of element i, and an object to an object with the same keys whose member k is the copy of member k |
| DeltaWriter.Apply | src/__tests__/actionrevelation.test.js:279-288 | Every failure of the delta writer is the one INVALID_OPERATION "non-existent location" error |
| DeltaWriter.EditAt | src/__tests__/actionrevelation.test.js:290-316 | An edit along a path succeeds iff the path exists and the edit succeeds at its end; afterwards the path holds the edited value and the top-level kind is kept |
| DeltaWriter.RemoveAll | src/__tests__/actionrevelation.test.js:467-497 | Never lengthens the array, and leaves an array without the value exactly as it is |
| DeltaWriter.RemoveAllCounts | src/__tests__/actionrevelation.test.js:467-497 | The result holds no copy of the value and every other element exactly as many times as the array did |
| DeltaWriter.RemoveAllConcat | src/__tests__/actionrevelation.test.js:467-497 | Removing from a concatenation is concatenating the removals, so the kept elements stay in their original order |
| DeltaWriter.RemoveMembers | src/__tests__/actionrevelation.test.js:467-497 | Keeps exactly the members whose value differs from the value, each unchanged |
| DeltaWriter.EditNode | src/__tests__/actionrevelation.test.js:279-316 | An edit at the node fails only with the non-existent location error; except a Set at the target, a successful edit keeps the node's JSON type; an edit of a child succeeds only where the child exists or Set adds a key to an object |
| DeltaWriter.ApplyAtParent | src/__tests__/actionrevelation.test.js:290-400 | An operation on a parent (Set, Delete, InsertBefore, InsertAfter) with a non-empty path succeeds iff the parent exists and the child edit succeeds there, and the parent then holds the edited container |
| DeltaWriter.Replay | src/actionrevelation.js:98-104 | Replaying fails only with the non-existent location error, and replaying a single delta is applying it |
| DeltaWriter.ReplaySnoc | src/actionrevelation.js:279-285 | Replaying one more delta is applying it to the result of the replay so far |
| DeltaWriter.ReplayConcat | src/actionrevelation.js:98-104 | Replaying two logs one after the other is replaying their concatenation; a failure in the first stops the whole replay |
| DeltaWriter.ApplyFrame | src/__tests__/actionrevelation.test.js:290-316 | A delta leaves unchanged every location whose path parts from the path it edits at: the location itself, or for Set, Delete, InsertBefore and InsertAfter on a non-empty path, the parent of the location |
| DeltaWriter.EditAtUndo | src/__tests__/actionrevelation.test.js:960-987 | An edit undone at the node is undone in the whole document |
| DeltaWriter.MissingLocationFails | src/__tests__/actionrevelation.test.js:362-371 | Any delta other than Set whose location does not exist fails with INVALID_OPERATION |
| DeltaWriter.SetStoresValue | src/__tests__/actionrevelation.test.js:279-316 | Set succeeds iff the parent exists and either is an object and the last step a key, or already has that child; afterwards the path holds the value, and the parent is the old object with that key mapped to the value, or the old array with that index replaced by the value |
| DeltaWriter.SetRootReplaces | src/actionrevelation.js:262-286 | Set at the root replaces the whole document |
| DeltaWriter.DeleteRemovesKey | src/__tests__/actionrevelation.test.js:362-400 | Deleting an object member succeeds iff it exists, and removes exactly that key from its parent |
| DeltaWriter.DeleteRemovesElement | src/__tests__/actionrevelation.test.js:362-400 | Deleting an array index succeeds iff the element exists, and the parent becomes the array without that index, later elements moving down by one |
| DeltaWriter.ToggleInvolution | src/__tests__/actionrevelation.test.js:949-987 | Toggle succeeds iff the location holds a boolean, negates it, and toggling twice restores the document |
| DeltaWriter.IncrementDecrementInverse | src/__tests__/actionrevelation.test.js:765-802 | Increment succeeds iff the location holds a number, adds the amount, and Decrement by the same amount undoes it |
| DeltaWriter.DecrementIncrementInverse | src/__tests__/actionrevelation.test.js:864-901 | Decrement succeeds iff the location holds a number, subtracts the amount, and Increment by the same amount undoes it |
| DeltaWriter.ConcatenateStrings | src/__tests__/actionrevelation.test.js:559-600 | Prepend and Append succeed iff the location holds a string, and put the value in front of it or after it |
| DeltaWriter.InsertFirstDeleteFirst | src/__tests__/actionrevelation.test.js:1052-1089 | InsertFirst succeeds iff the location holds an array, puts the value in front, and DeleteFirst undoes it |
| DeltaWriter.InsertLastDeleteLast | src/__tests__/actionrevelation.test.js:1157-1194 | InsertLast succeeds iff the location holds an array, puts the value at the end, and DeleteLast undoes it |
| DeltaWriter.DeleteFirstOfArray | src/__tests__/actionrevelation.test.js:1460-1498 | DeleteFirst succeeds iff the location holds a non-empty array, and drops its first element |
| DeltaWriter.DeleteLastOfArray | src/__tests__/actionrevelation.test.js:1543-1581 | DeleteLast succeeds iff the location holds a non-empty array, and drops its last element |
| DeltaWriter.InsertBeforePlaces | src/__tests__/actionrevelation.test.js:1262-1303 | InsertBefore succeeds iff the path ends in an existing array index; the value lands at that index and the element there and those after it move up by one |
| DeltaWriter.InsertBeforeDelete | src/__tests__/actionrevelation.test.js:1273-1285 | Deleting the index InsertBefore wrote to restores the document |
| DeltaWriter.InsertAfterPlaces | src/__tests__/actionrevelation.test.js:1371-1412 | InsertAfter succeeds iff the path ends in an existing array index; the value lands one past that index and later elements move up by one |
| DeltaWriter.InsertAfterDelete | src/__tests__/actionrevelation.test.js:1382-1394 | Deleting the index just after the path restores the document InsertAfter changed |
| DeltaWriter.DeleteValueRemovesAll | src/__tests__/actionrevelation.test.js:456-497 | DeleteValue succeeds iff the location holds an array or object; an array becomes exactly RemoveAll of its elements (every copy removed, the rest in order, by RemoveAllCounts and RemoveAllConcat); an object keeps exactly the members whose value differs, each unchanged |
| DeltaWriter.ApplyKeepsObjectRoot | src/actionrevelation.js:264-268 | A delta that keeps to the root policy never turns an object root into anything else |
| Revelation.ValueCheck | src/actionrevelation.js:262-767 | Prepend and Append pass iff the value is a string, else fail with the string message; Increment and Decrement pass iff it is a number, else fail with the number message; Delete, Toggle, DeleteFirst and DeleteLast always pass; Set, DeleteValue and the four inserts give exactly `_validateJsonValue`'s verdict |
| Revelation.RootCheck | src/actionrevelation.js:266-751 | The empty-path check each method makes: at the root, only DeleteValue and a Set of a plain object pass. A Set of anything else fails with INVALID_VALUE "Can only write an object to the root."; Delete, the string, number and boolean operations and the six array operations each fail with their own INVALID_PATH message |
| Revelation.Admit | src/actionrevelation.js:262-286 | A path error wins over a value error, and a value error over the root check, which applies only to the empty path; a call that passes all three yields a delta naming the operation, with the caller's path and (for value-carrying operations) a copy of the value |
| Revelation.RootPolicy | src/actionrevelation.js:262-767 | What each operation does with the empty path, with its message; Prepend, Append, Increment and Decrement check the payload type before the root |
| Revelation.Record | src/actionrevelation.js:279-285 | Without feed data the delta is logged; with it, the delta is applied, and logged only if that succeeds; a failure changes nothing |
| Revelation.Next | src/actionrevelation.js:262-286 | A failing call changes nothing; a succeeding call appends exactly one delta (its operation, its path, a value iff the operation carries one) and keeps the earlier entries |
| Revelation.NextKeepsInvariant | src/actionrevelation.js:98-104 | Every call keeps the invariant: the new feed data is the old feed data with the logged deltas replayed, the root stays an object, every logged delta is admissible |
| Revelation.NoFeedDataStillLogs | src/actionrevelation.js:15-20 | Without old feed data every structurally valid call is logged and no feed data appears |
| Revelation.TrackedCallsApply | src/__tests__/actionrevelation.test.js:279-288 | With old feed data, a structurally valid call fails exactly when applying its delta fails, and then with INVALID_OPERATION |
| Revelation.RunAppendOnly | src/actionrevelation.js:262-286 | Over any sequence of calls the invariant holds, the old feed data is unchanged, and the log only grows at its end, by at most one entry per call |
| Revelation.ActionRevelation.constructor | src/actionrevelation.js:32-87 | A new revelation has no deltas and new feed data equal to the old |
| Revelation.ActionRevelation.NewFeedData | src/actionrevelation.js:98-104 | Fails with NO_FEED_DATA iff no old feed data was supplied; otherwise returns the old feed data with every logged delta applied |
| Revelation.ActionRevelation.Hashable | src/actionrevelation.js:116-118 | True iff the current feed data is available |
| Revelation.ActionRevelation.Hash | src/actionrevelation.js:127-133 | Fails with NO_FEED_DATA iff the revelation is not hashable; otherwise the digest of the current feed data |
| Revelation.ActionRevelation.Commit | src/actionrevelation.js:279-285 | Applies an admitted delta to the tracked feed data and logs it, as Record says, keeping the invariant |
| Revelation.ActionRevelation.Set | src/actionrevelation.js:262-286 | Makes exactly the transition Next gives for a Set call and keeps the invariant |
| Revelation.ActionRevelation.Delete | src/actionrevelation.js:296-318 | Makes exactly the transition Next gives for a Delete call and keeps the invariant |
| Revelation.ActionRevelation.DeleteValue | src/actionrevelation.js:330-349 | Makes exactly the transition Next gives for a DeleteValue call and keeps the invariant |
| Revelation.ActionRevelation.Prepend | src/actionrevelation.js:361-390 | Makes exactly the transition Next gives for a Prepend call and keeps the invariant |
| Revelation.ActionRevelation.Append | src/actionrevelation.js:402-431 | Makes exactly the transition Next gives for an Append call and keeps the invariant |
| Revelation.ActionRevelation.Increment | src/actionrevelation.js:443-472 | Makes exactly the transition Next gives for an Increment call and keeps the invariant |
| Revelation.ActionRevelation.Decrement | src/actionrevelation.js:484-513 | Makes exactly the transition Next gives for a Decrement call and keeps the invariant |
| Revelation.ActionRevelation.Toggle | src/actionrevelation.js:523-547 | Makes exactly the transition Next gives for a Toggle call and keeps the invariant |
| Revelation.ActionRevelation.InsertFirst | src/actionrevelation.js:559-585 | Makes exactly the transition Next gives for an InsertFirst call and keeps the invariant |
| Revelation.ActionRevelation.InsertLast | src/actionrevelation.js:597-623 | Makes exactly the transition Next gives for an InsertLast call and keeps the invariant |
| Revelation.ActionRevelation.InsertBefore | src/actionrevelation.js:635-661 | Makes exactly the transition Next gives for an InsertBefore call and keeps the invariant |
| Revelation.ActionRevelation.InsertAfter | src/actionrevelation.js:673-699 | Makes exactly the transition Next gives for an InsertAfter call and keeps the invariant |
| Revelation.ActionRevelation.DeleteFirst | src/actionrevelation.js:709-733 | Makes exactly the transition Next gives for a DeleteFirst call and keeps the invariant |
| Revelation.ActionRevelation.DeleteLast | src/actionrevelation.js:743-767 | Makes exactly the transition Next gives for a DeleteLast call and keeps the invariant |
| Scenarios.SetUnderMissingParentFails | src/__tests__/actionrevelation.test.js:279-288 | On `{}`, `set(["abc", "def"], "value")` fails with INVALID_OPERATION and changes nothing |
| Scenarios.SetAddsKey | src/__tests__/actionrevelation.test.js:290-300 | On `{abc: {}}`, the same call logs one Set delta and yields `{abc: {def: "value"}}` |
| Scenarios.SetWithoutFeedDataIsLogged | src/__tests__/actionrevelation.test.js:318-328 | Without old feed data the same call is logged and the feed data stays absent |
| Scenarios.DeleteValueRemovesEveryMatch | src/__tests__/actionrevelation.test.js:467-497 | `{a: 1, b: 1, c: 0}` less every 1 is `{c: 0}`, and that less every 0 is `{}` |
| Scenarios.InsertBeforeShifts | src/__tests__/actionrevelation.test.js:1273-1285 | InsertBefore at index 1 of `[1, 2, 3]` gives `[1, "value", 2, 3]` |
| Scenarios.InsertAfterShifts | src/__tests__/actionrevelation.test.js:1382-1394 | InsertAfter at index 1 of `[1, 2, 3]` gives `[1, 2, "value", 3]` |
| Scenarios.SelfReferenceIsCircular | src/__tests__/actionrevelation.test.js:206-217 | `o = {}; o.o = o` is circular and is rejected with "Circular reference present" |
| Scenarios.SharedChildIsNotCircular | src/__tests__/actionrevelation.test.js:146-151 | An object holding one child twice is not circular |
| Scenarios.UndefinedMessages | src/__tests__/actionrevelation.test.js:219-239 | `undefined` is rejected as a missing value and `[undefined]` as holding an undefined value |

DeleteValue removes every member or element equal to the value, not only the
first: the tests (src/__tests__/actionrevelation.test.js:467-497) show every
matching member removed. The source has fourteen delta methods, and the model
has all fourteen.

## Left out

- The digest: `_hash` computes an MD5 digest through the external
  `md5Calculator`. `Hash` takes the digest function as a parameter instead.
- The delta writer is an external library and is not part of this model.
  `DeltaWriter` models its behaviour as the tests of
  src/__tests__/actionrevelation.test.js show it.
- Numbers are unbounded integers. JS floating point, fractions in payloads,
  `NaN` and infinities are not modelled. A fractional path element is modelled
  only as invalid.
- Deep equality in DeleteValue is structural equality of JSON documents, with
  key order ignored. Key order of objects is not modelled anywhere.
- Aliasing is not modelled. The source stores the caller's path and value
  arrays in the delta by reference, so a caller who later mutates them changes
  the log. The model stores copies.
- Revelation.ActionRevelation.constructor: requires the old feed data to be
  absent or an object. The source's factory assumes valid arguments and
  documents that parameter as an object or null. Under that assumption JS
  truthiness of the feed data is the same as its presence.
- JsValues.HasCircular, JsValues.HasUndefined: lodash's `_.each` walks an
  object that has a non-negative integer `length` member as if it were an
  array, visiting only the indices below that length. The model visits every
  member of an object. So `{length: 1}` counts as holding undefined in the
  source but not in the model, and `{length: 0, self: o}` (o being the object
  itself) passes the circular check in the source but not in the model.
- JsValues.HasUndefined: requires an acyclic value. The source's
  `_hasUndefined` recurses without bound on a cycle. It is only reached after
  the circular check has passed.
- Objects that are neither plain objects nor arrays (dates, class instances,
  functions) are not modelled as values. Callers can pass only the JSON-like
  shapes of the `Value` type.
- The feed name and feed arguments are stored but not used by any operation,
  so nothing is proved about them beyond the constructor storing them.
- src/server.js and src/main.js (the server around the revelation) are not
  part of this model.
