# Coordinator index of a replicated file store

This project models the coordinator's in-memory index (`Index.java`) of a
replicated file store. Storage nodes (Dstores) are identified by their port.
The index keeps four pieces of state, each a field of the Dafny class
`CoordinatorIndex.Index`:

- `dstoreFiles`: each registered node's port and the list of filenames it holds (`map<int, seq<string>>`);
- `dstoreFileSizes`: the committed files and their sizes. A file "exists" exactly when it is a key here (`map<string, int>`);
- `fileDStoresAccessed`: per file, a load/reload cursor counting the nodes tried so far (`map<string, int>`);
- `currentState`: in-progress markers, strings `"<STATE> <filename>"` that the controller uses as a per-file lock (`seq<string>`).

Every method of the class states its whole new state in terms of the old one,
and keeps the invariant `Valid()`:
- every committed file has a cursor;
- no cursor is negative;
- every marker has the second `split(" ")` field that the lookups read.

Calls that dereference a missing map entry in Java (a `NullPointerException`)
become preconditions:
- `AddDStoreFile` needs a registered port;
- `IncrementCurrentStoreFiles` and `GetCurrentStoreFile` need a cursor;
- `GetFileSize` needs a committed file.

The project has three modules:
- `Tokens` (`tokens.dfy`): the `split(" ")` fields of a marker, and `String.join(" ", …)` with a reference splitter `Fields`.
- `Lists` (`lists.dfy`): `ArrayList.remove(Object)` as `RemoveFirst`, and the walk over a `HashMap` key set as `Enumerate`. `Enumerate` returns every key once, in an order the caller cannot rely on.
- `CoordinatorIndex` (`index.dfy`): the marker list as values (`StateOf`, `WithoutMarker`) with their lemmas, and the class `Index`.

Two behaviours of the index are worth stating plainly:
- `getRDStores` takes the first R keys in `HashMap` order. It does not rank nodes by load (for example, by fewest files held). It returns an empty list, not an error, when fewer than R nodes are registered.
- The only per-file lock is the marker list. `Index` has no atomic check-and-set: checking for a marker and adding one are separate calls.

## Model

| member | source | states |
|---|---|---|
| `CoordinatorIndex.Index.constructor` | COMP2207-2223-LocalSubmissionValidation-v1.0.0/Index.java:9-25 | A new index has no nodes, no committed files, no cursors and no markers, and is valid. |
| `CoordinatorIndex.Index.AddFiles` | COMP2207-2223-LocalSubmissionValidation-v1.0.0/Index.java:27-30 | The port is registered with exactly the given list, replacing an earlier one. Other ports, sizes, cursors and markers are unchanged. |
| `CoordinatorIndex.Index.AddFileSizes` | COMP2207-2223-LocalSubmissionValidation-v1.0.0/Index.java:32-35 | Afterwards the file is committed, its size is the given one and its cursor is 0. Other files' sizes and cursors, the node lists and the markers are unchanged. |
| `CoordinatorIndex.Index.AddDStoreFile` | COMP2207-2223-LocalSubmissionValidation-v1.0.0/Index.java:37-39 | For a registered port, the filename is appended to the end of that port's list. Nothing else changes. |
| `CoordinatorIndex.Index.RemoveFiles` | COMP2207-2223-LocalSubmissionValidation-v1.0.0/Index.java:41-45 | Afterwards the file is not committed and has no cursor. Each port's list is its old list with only the first copy of the name deleted. A port still lists the name exactly when its old list held it twice or more. Other sizes, cursors and the markers are untouched. |
| `CoordinatorIndex.Index.GetAllFiles` | COMP2207-2223-LocalSubmissionValidation-v1.0.0/Index.java:47-50 | Returns the committed files, each once, joined by single spaces; the empty string when none are committed. When no name holds a space, splitting the reply gives exactly the committed files. |
| `CoordinatorIndex.Index.GetPortsWithFile` | COMP2207-2223-LocalSubmissionValidation-v1.0.0/Index.java:52-61 | Returns exactly the registered ports whose list contains the file, with no port twice. State is unchanged. |
| `CoordinatorIndex.Index.GetRDStores` | COMP2207-2223-LocalSubmissionValidation-v1.0.0/Index.java:63-70 | For R ≥ 0: an empty list when fewer than R ports are registered, otherwise exactly R distinct registered ports. State is unchanged. |
| `CoordinatorIndex.Index.CurrentFileState` | COMP2207-2223-LocalSubmissionValidation-v1.0.0/Index.java:72-84 | Returns `StateOf` the marker list: the state of the first marker about the file, or none (Java `null`). State is unchanged. |
| `CoordinatorIndex.Index.RemoveCurrentState` | COMP2207-2223-LocalSubmissionValidation-v1.0.0/Index.java:86-95 | The marker list becomes `WithoutMarker` of the old one: the first marker about the file is deleted, the others keep their order, and nothing happens without a match. The maps are unchanged. |
| `CoordinatorIndex.Index.ContainsFilename` | COMP2207-2223-LocalSubmissionValidation-v1.0.0/Index.java:97-99 | A file is present exactly when it has a size; in a valid index a present file also has a cursor, so reading its cursor cannot fail. |
| `CoordinatorIndex.Index.GetFileSize` | COMP2207-2223-LocalSubmissionValidation-v1.0.0/Index.java:113-115 | For a committed file, the size it was committed with. In a valid index that file also has a cursor, so the load path can read both. |
| `CoordinatorIndex.Index.GetCurrentStoreFile` | COMP2207-2223-LocalSubmissionValidation-v1.0.0/Index.java:101-103 | For a file with a cursor, the number of nodes tried, which is never negative. |
| `CoordinatorIndex.Index.IncrementCurrentStoreFiles` | COMP2207-2223-LocalSubmissionValidation-v1.0.0/Index.java:105-107 | For a file with a cursor, the cursor goes up by exactly 1. Nothing else changes. |
| `CoordinatorIndex.Index.ResetCurrentStoreFile` | COMP2207-2223-LocalSubmissionValidation-v1.0.0/Index.java:109-111 | The file's cursor is 0 afterwards, created if it was missing. Nothing else changes. |
| `CoordinatorIndex.Index.SetCurrentState` | COMP2207-2223-LocalSubmissionValidation-v1.0.0/Index.java:117-119 | The marker is appended to the end of the list. The maps are unchanged. |
| `CoordinatorIndex.FirstMarkerFor` | COMP2207-2223-LocalSubmissionValidation-v1.0.0/Index.java:75-81 | The loop's stopping point: no earlier marker is about the file, and the marker there is about it unless the list is exhausted. |
| `CoordinatorIndex.StateOf` | COMP2207-2223-LocalSubmissionValidation-v1.0.0/Index.java:72-84 | None exactly when no marker is about the file. Otherwise, the state of the first marker that is. |
| `CoordinatorIndex.WithoutMarker` | COMP2207-2223-LocalSubmissionValidation-v1.0.0/Index.java:86-95 | The same list when no marker is about the file. Otherwise one element shorter, and it holds only markers of the old list. |
| `CoordinatorIndex.StateAfterPush` | COMP2207-2223-LocalSubmissionValidation-v1.0.0/Index.java:117-119 | Appending a marker keeps an existing answer for a file. A file with no marker gets the new marker's state if the marker is about it. |
| `CoordinatorIndex.PushThenRemove` | COMP2207-2223-LocalSubmissionValidation-v1.0.0/Index.java:86-95 | Setting a marker for a file that had none, then removing that file's marker, gives back the original list. The file is then unmarked again. |
| `CoordinatorIndex.RemoveKeepsOtherState` | COMP2207-2223-LocalSubmissionValidation-v1.0.0/Index.java:86-95 | Removing one file's marker does not change the answer for any other file. |
| `CoordinatorIndex.FirstMarkerAfterDelete` | COMP2207-2223-LocalSubmissionValidation-v1.0.0/Index.java:91 | Deleting a marker about another file keeps the first marker about this file. Its position drops by one if it came after the deleted marker. |
| `CoordinatorIndex.ListingReadsBack` | COMP2207-2223-LocalSubmissionValidation-v1.0.0/Index.java:47-50 | The listing of no names is empty. When no name holds a space, splitting the listing gives back exactly the committed names, each once. |
| `Lists.RemoveFirst` | COMP2207-2223-LocalSubmissionValidation-v1.0.0/Index.java:42 | `ArrayList.remove(Object)` of the per-port list: the list is unchanged when the name is absent, and otherwise one element shorter. |
| `Lists.RemoveFirstMultiset` | COMP2207-2223-LocalSubmissionValidation-v1.0.0/Index.java:42 | Exactly one copy of the name goes, if there is one, and every other element keeps its count. |
| `Lists.RemoveFirstAt` | COMP2207-2223-LocalSubmissionValidation-v1.0.0/Index.java:42 | It is the first position holding the name that is deleted, and the other elements keep their order. |
| `Lists.RemoveFirstMembership` | COMP2207-2223-LocalSubmissionValidation-v1.0.0/Index.java:42 | The name survives its removal exactly when it occurred twice or more. Other names are present afterwards exactly when they were before. |
| `Lists.Enumerate` | COMP2207-2223-LocalSubmissionValidation-v1.0.0/Index.java:55 | The walk over a key set: every key exactly once, and nothing else. |
| `Tokens.Head` | COMP2207-2223-LocalSubmissionValidation-v1.0.0/Index.java:79 | `split(" ")[0]`: the longest prefix without a space. |
| `Tokens.TailSplit` | COMP2207-2223-LocalSubmissionValidation-v1.0.0/Index.java:78-79 | A string with a space is its first field, that space, and everything after it. |
| `Tokens.HasSecondField` | COMP2207-2223-LocalSubmissionValidation-v1.0.0/Index.java:78 | Element 1 of `split(" ")` exists exactly when the string has a space and some later character is not a space, because `split` drops trailing empty fields. The model's invariant requires this of every marker, where Java would throw `ArrayIndexOutOfBoundsException`. |
| `Tokens.StateField` | COMP2207-2223-LocalSubmissionValidation-v1.0.0/Index.java:79 | `split(" ")[0]` of a marker, its state: it holds no space and is no longer than the marker. |
| `Tokens.StateFieldPosition` | COMP2207-2223-LocalSubmissionValidation-v1.0.0/Index.java:79 | The state field is a prefix of the marker that ends at the first space or at the end. |
| `Tokens.NameField` | COMP2207-2223-LocalSubmissionValidation-v1.0.0/Index.java:78 | `split(" ")[1]` of a marker, the filename compared at lines 78 and 90: it holds no space, and it is empty when the marker has no space. |
| `Tokens.NameFieldPosition` | COMP2207-2223-LocalSubmissionValidation-v1.0.0/Index.java:90 | For a marker with a space, the filename field starts right after the state field and its space. It ends at the next space or at the end of the marker. |
| `Tokens.MarkerFields` | COMP2207-2223-LocalSubmissionValidation-v1.0.0/Index.java:78-79 | A marker written as state, space, filename (space-free parts, non-empty name) has a second field. Splitting it gives back exactly that state and that filename. |
| `Tokens.Join` | COMP2207-2223-LocalSubmissionValidation-v1.0.0/Index.java:49 | `String.join(" ", …)`: the listing starts with the first name. When no name holds a space, it has exactly one space fewer than there are names. |
| `Tokens.FieldsOfJoin` | COMP2207-2223-LocalSubmissionValidation-v1.0.0/Index.java:49 | Splitting the space-joined listing of a non-empty list of space-free names gives the list back. |

## Left out

- The console message of `addFiles` (line 28): output only, with no effect on state.
- `HashMap` iteration order (lines 49, 55, 69). `Enumerate` returns the keys in an arbitrary order. So `GetAllFiles`, `GetPortsWithFile` and `GetRDStores` state membership, distinctness and length, not positions.
- Aliasing of the `ArrayList` passed to `addFiles` (line 29). The model stores a value copy, so later changes by the caller to that list are not reflected.
- SetCurrentState: requires a marker with a second `split(" ")` field. The source accepts any string; `currentFileState` and `removeCurrentState` then throw when they reach it. `CurrentFileState` and `RemoveCurrentState` require every marker to be well formed, not only those before the first match.
- GetRDStores: requires R ≥ 0, because `Stream.limit` throws for a negative R.
- IncrementCurrentStoreFiles: the cursor is an unbounded integer. The 32-bit wrap-around after 2^31 increments is not modelled.
- Concurrency: the maps are unsynchronised and shared by connection threads in the running controller. The model is sequential.
- The controller's request handlers, ACK collection, timeouts, rebalancing and the storage nodes' file persistence are not part of this model.
