# walker — a verified model of a reflective struct walker

The Go package `walker` visits every node reachable from a value by
reflection: `Walk(s, visitor)` calls the visitor once for every struct field,
slice element and map entry. It descends through pointers and interfaces,
and stops at nil pointers. Each call receives four things:

- the child value;
- the *branch* — every value `walk` was entered with on the way down, ending
  with the child's container. `walk` is always handed a child's dynamic value
  (through `child.Interface()`), so an interface never appears in a branch;
  a pointer does, followed by its pointee;
- the *path* — one string key per level: the field's JSON key, the decimal
  slice index, or the map key;
- for struct fields, the field descriptor.

The key of a struct field comes from `getFieldKey`. It is the field's `json`
tag. When the tag is empty or `-`, it is the field name with its first
character lower-cased.

This project models that traversal in Dafny:

- `seqs.dfy`, module `Seqs`: generic facts about sequence concatenation.
- `wrappers.dfy`: the `Option` datatype.
- `walker.dfy`, module `Walker`: the value and event datatypes, and `FieldKey`
  for `getFieldKey`.
  - `WalkFrom`/`ChildrenFrom` give `walk` as a total function. It returns
    the ordered trace of visitor calls.
  - `WalkInto`, with one loop method per container kind, is `walk` as the
    source writes it: one recursive procedure with a loop per container that
    appends each visitor call. `Walk` is the entry point.
  - Each method is proved equal to the trace function.
- `walker_props.dfy`, module `WalkerProofs`: the properties of the traversal.
  - call count, and which calls appear;
  - branch and path shape, and where each call comes from;
  - pre-order layout, nil pointers, and field and element order;
  - map entries visited exactly once, and independence from map order;
  - decimal index segments, and the field-key rule;
  - a worked example.
- `fieldkey_utf8.dfy`, module `FieldKeyUtf8`: the byte-level field-key
  computation behind the finding below.

The visitor's side effects become the trace itself: the visitor is called
with exactly the `Event`s of `WalkTrace(root)`, in that order.

Two consequences of the code are worth stating outright:

- **Nil-pointer fields are reported.** A struct field (or element, or map
  entry) holding a nil pointer is passed to the visitor, because
  walker.go:67 runs before walker.go:68. Only what lies beneath the pointer
  is skipped (walker.go:45-46). A struct `{Name, Tags: [a, c], Meta: nil}`
  gives five calls: name, tags, tags/0, tags/1 and meta (`Scenario`).
- **Branch length.** Each pointer crossed on the way to a call adds one
  branch entry and no path segment. An interface adds neither. So every
  call's branch is as long as its path plus the number of pointers on it.
  Branch and path are equally long for a call that crosses no pointer, and
  for every call when the root holds no non-nil pointer. A nil pointer is
  reported but never entered, so it does not count (`BranchMatchesPath`).

## Model

| member | source | states |
|---|---|---|
| Walker.ToLower | walker.go:25 | ASCII case lowering: an upper-case letter becomes its lower-case partner; every other character is unchanged |
| Walker.FieldKey | walker.go:20-29 | a tag other than "" or "-" is the key verbatim; otherwise a non-empty name gives the name with only its first character lowered; an empty name gives the tag itself |
| Walker.Itoa | walker.go:74 | the decimal rendering of an index is non-empty, all digits, and has no leading zero |
| Walker.FieldAt | walker.go:63-67 | a field descriptor is passed exactly when the container is a struct (walker.go:76 and 85 pass nil) |
| Walker.ChildEvent | walker.go:65-67 | a child's call carries the container's branch unchanged, and the parent path extended by exactly one segment |
| Walker.Arity | walker.go:61-81 | the number of loop iterations for a container: fields, elements or map entries; no loop for any other kind. Its use is proved in `CallCount` and `OffsetsCoverTrace` |
| Walker.ChildAt | walker.go:62-82 | the i-th child handed to the visitor: the field value, the element, or the map value. `DirectChildren`, `StructFieldsInOrder`, `SliceElementsInOrder` and `MapEntriesOnce` prove each child is reported |
| Walker.SegmentAt | walker.go:65-83 | the i-th child's path segment: the field key, the decimal index, or the map key. Shown by `StructFieldsInOrder`, `SliceElementsInOrder`, `ItoaRoundTrip` and `MapEntriesOnce` |
| Walker.WalkFrom | walker.go:31-89 | `walk` as the trace of calls it makes, looking through interfaces (their content arrives via `Interface()` at walker.go:68, 77, 86). Proved: `CallCount`, `CallsExtendContext`, `BranchCoversPath`, `CallsComeFromParent`, `PreOrder`, `DirectChildren`, `MapOrderIrrelevant` |
| Walker.ChildrenFrom | walker.go:61-87 | one container's loop from iteration i on: each child's call, then its walk. Proved: `ChildrenCallCount`, `ChildrenSplit`, `ChildrenAtDepth`, `MapChildrenAreBlocks` |
| Walker.WalkTrace | walker.go:15-18 | `Walk`'s calls: the walk of the root from an empty branch and path. Proved: `RootNeverReported`, `LeafRoot`, `BranchMatchesPath`, `Scenario` |
| Walker.WalkInto | walker.go:31-89 | the recursive procedure appends exactly the calls of the trace function `WalkFrom` to the calls made so far |
| Walker.WalkFields | walker.go:60-69 | the struct loop appends, field by field, the field's call followed by the field's own walk |
| Walker.WalkElements | walker.go:71-78 | the slice loop appends, element by element, the element's call followed by its own walk |
| Walker.WalkEntries | walker.go:80-87 | the map loop appends, entry by entry in enumeration order, the entry's call followed by its own walk |
| Walker.Walk | walker.go:15-18 | the entry point starts with an empty branch and path and makes exactly the calls of `WalkTrace` |
| WalkerProofs.CallCount | walker.go:31-89 | the number of calls equals the number of struct fields, slice elements and map entries reachable without passing a nil pointer |
| WalkerProofs.ChildrenCallCount | walker.go:61-87 | the calls made by a container's loop from index i on number the reachable nodes of children i and later |
| WalkerProofs.LeafRoot | walker.go:36-48 | a root with nothing reachable (scalar, array, nil pointer, empty container) gives no call at all |
| WalkerProofs.Concrete | walker.go:68-86 | the value `walk` is handed for a child: its interface layers stripped; never an interface, and unchanged for a non-interface |
| WalkerProofs.CallsExtendContext | walker.go:34 | every call's branch extends the starting branch plus the value `walk` is handed (the node, or an interface's content), and its path strictly extends the starting path |
| WalkerProofs.ChildrenExtendContext | walker.go:61-87 | every call made by a container's loop extends the loop's branch and strictly extends its path |
| WalkerProofs.RootNeverReported | walker.go:16-18 | every call has a non-empty path and a branch that starts with the root (its dynamic value), so the root itself is never a call's own position |
| WalkerProofs.BranchCoversPath | walker.go:34-58 | below the starting point, each call's branch grows by exactly its path's growth plus the number of pointers the new branch entries hold; with no non-nil pointer in the node, by exactly the path's growth |
| WalkerProofs.ChildrenBranchCoversPath | walker.go:61-87 | the same exact relation for the calls of one container's loop, counted from the loop's branch |
| WalkerProofs.BranchMatchesPath | walker.go:16-34 | every call's branch is as long as its path plus the pointers on it; hence equally long when no pointer is crossed, and for every call when the root holds no non-nil pointer (nil pointers and interfaces allowed) |
| WalkerProofs.NilLeafBranchMatchesPath | walker.go:34-46 | for a struct with a scalar field and a nil-pointer field, every call's branch is exactly as long as its path: the nil pointer is reported but adds no branch entry |
| WalkerProofs.CallsComeFromParent | walker.go:60-87 | every call reports one child of the last node of its branch, at that child's index, below the path minus its last segment |
| WalkerProofs.ChildrenComeFromParent | walker.go:61-87 | every call of a container's loop reports a direct child of the last node of its branch |
| WalkerProofs.WalkRebase | walker.go:31-34 | walking with a longer starting branch and path prefixes every call's branch and path by that extension, and changes nothing else |
| WalkerProofs.ChildrenRebase | walker.go:61-87 | the same prefixing property for one container's loop |
| WalkerProofs.LocatedRebase | walker.go:34 | the branch prefix does not affect the values, paths or fields reported |
| WalkerProofs.UnwrapTransparent | walker.go:39-68 | an interface's walk is exactly its content's walk; a non-nil pointer reports the same values, paths and fields as walking the pointee directly, with no path segment added |
| WalkerProofs.BlocksBeforeLength | walker.go:61-87 | the calls for children before index i number `Offset(i)`, the sum of one plus the reachable count of each earlier child |
| WalkerProofs.ChildrenSplit | walker.go:61-87 | a container's loop output is the blocks of children before index i followed by the loop output from i on |
| WalkerProofs.ContainerWalk | walker.go:60-87 | a non-empty container's walk is its loop's output with the container appended to the branch |
| WalkerProofs.PreOrderBlocks | walker.go:67-68 | a container's trace is the blocks before child i, then child i's call, then child i's own walk, then the remaining children |
| WalkerProofs.PreOrder | walker.go:67-68 | at position `Offset(i)` of the trace is child i's call, and immediately after it, contiguously, lies child i's whole walk (pre-order) |
| WalkerProofs.OffsetsCoverTrace | walker.go:61-87 | the blocks of all children exactly fill a container's trace |
| WalkerProofs.NilPointerSibling | walker.go:43-47 | a child holding a nil pointer is itself reported, contributes exactly one call, and is followed directly by its next sibling's call |
| WalkerProofs.DirectChildren | walker.go:61-87 | the calls whose branch has length one more than the starting branch are exactly the direct children, in order, of the value `walk` is handed (for an interface, its content) |
| WalkerProofs.ChildrenAtDepth | walker.go:61-87 | the calls of a container's loop from index i on at the loop's depth are its direct children from i on |
| WalkerProofs.StructFieldsInOrder | walker.go:60-69 | a struct's direct calls are its fields in declaration order, each with path parent + field key, the field's descriptor, and branch ending with the struct |
| WalkerProofs.SliceElementsInOrder | walker.go:71-78 | a slice's direct calls are its elements in index order, each with path parent + decimal index, no descriptor, and branch ending with the slice |
| WalkerProofs.MapEntriesOnce | walker.go:80-87 | a map's direct calls report, as a multiset, exactly the map's (key, value) entries, each with no descriptor and one more path segment; with distinct keys each entry exactly once |
| WalkerProofs.DistinctOnce | walker.go:81 | with distinct keys each entry occurs once in the enumeration |
| WalkerProofs.MapOrderIrrelevant | walker.go:81 | any two enumeration orders of the same map give the same multiset of (value, path, field) calls, and the same number of calls |
| WalkerProofs.MapChildrenAreBlocks | walker.go:80-87 | the map loop's reported calls are, entry by entry, the entry's call followed by its walk |
| WalkerProofs.BlocksPermutation | walker.go:81 | permuting the entries permutes the per-entry blocks of calls |
| WalkerProofs.LocatedIgnoresBranch | walker.go:34 | the values, paths and fields a walk reports do not depend on the branch it starts with |
| WalkerProofs.ItoaRoundTrip | walker.go:74 | the decimal segment of index i reads back as i |
| WalkerProofs.ItoaInjective | walker.go:74 | distinct indices get distinct path segments |
| WalkerProofs.FieldKeyExamples | walker.go:20-29 | "UserName" gives "userName"; tags "id" and "id,omitempty" are kept verbatim; tag "-" falls back to the name; an empty name gives the tag |
| WalkerProofs.FieldKeyLowerCamel | walker.go:22-26 | the default key has the name's length and agrees with it after the first character; it equals the name exactly when the name does not start with an upper-case letter |
| WalkerProofs.FieldKeyStable | walker.go:22-26 | applying the default rule to a default key gives the same key |
| WalkerProofs.TwoLeafSlice | walker.go:71-78 | a two-element slice of leaves gives exactly the calls for paths "0" and "1" |
| WalkerProofs.InterfaceFieldBranch | walker.go:60-68 | a field of interface type holding a slice is reported as the interface value, and the slice element's branch is the root and the slice, with no interface entry |
| WalkerProofs.ThreeFields | walker.go:60-69 | a three-field struct gives each field's call followed by that field's walk, in declaration order |
| WalkerProofs.ScenarioTrace | walker.go:31-89 | the full trace, with branches, of a struct holding a leaf, a two-leaf slice and a nil pointer |
| WalkerProofs.Scenario | walker.go:31-89 | struct {Name, Tags: [a, c], Meta: nil} gives five calls: name, tags, tags/0, tags/1, meta |
| WalkerProofs.WalkCount | walker.go:15-18 | the number of calls `Walk` makes equals the reachable child count |
| FieldKeyUtf8.RuneLen | walker.go:24 | a lead byte announces a sequence of 1 to 4 bytes; an ASCII byte is 1 byte |
| FieldKeyUtf8.FirstWidth | walker.go:24 | the width `range` advances past the first rune: more than 1 exactly when a multi-byte sequence is complete, otherwise 1 |
| FieldKeyUtf8.KeyAsWritten | walker.go:20-29 | the source's default key begins with the lowered rune and continues with the name from byte 1 on; otherwise the tag |
| FieldKeyUtf8.KeyIntended | walker.go:20-29 | the corrected default key begins with the lowered first rune and continues with the name after the bytes `range` stepped over; it agrees with the source whenever that width is 1 |
| FieldKeyUtf8.ValidConcat | walker.go:25 | joining two well-formed UTF-8 strings gives a well-formed string |
| FieldKeyUtf8.IntendedKeepsUtf8 | walker.go:20-29 | the corrected key of a well-formed name, tag and lowered rune is well-formed UTF-8 |
| FieldKeyUtf8.AsWrittenBreaksUtf8 | walker.go:24-25 | for the name "Éa" the source's key keeps a stray continuation byte and is not UTF-8; the corrected key is "éa" |

## Findings

| source | as written | input that shows it | evidently intended | confidence | as-written member | corrected member |
|---|---|---|---|---|---|---|
| walker.go:24-25 | the rest of the name is taken from byte offset `i+1`, where `i` is the byte offset of the first rune, so only one byte of the first rune is dropped | a field named "Éa" (bytes C3 89 61) with no json tag: the key is C3 A9 89 61, "é" followed by the stray continuation byte 89 | drop the whole first rune, i.e. slice from the offset `range` reaches next: `_, w := utf8.DecodeRuneInString(f.Name)` and `f.Name[w:]`, giving "éa" | high (not executed) | FieldKeyUtf8.AsWrittenBreaksUtf8 | FieldKeyUtf8.KeyIntended |

The rest of the model works on strings as sequences of characters (Go
runes). There, `Walker.FieldKey` drops exactly the first character, which is
the corrected behaviour (see `Walker.FieldKey` under "Left out").

## Left out

- Go reflection is not modelled. `reflect.TypeOf`, `ValueOf`, `Kind`,
  `Elem`, `Field`, `Index`, `MapKeys` and `MapIndex` are replaced by the
  `Value` datatype. It holds each value already classified by kind, with its
  children.
- The literal recursion at walker.go:49 is not modelled. That line passes
  the `reflect.Value` returned by `Elem()` to `walk` as an `interface{}`.
  Reflecting on that gives the `reflect.Value` struct itself, not the
  pointee. The model follows the comment at walker.go:38-42 instead:
  unwrapping continues with the pointee (a pointee of interface type with
  its content, as `Interface()` would hand it over).
- The interface case at walker.go:55-58 has no counterpart, because it is
  never reached. `walk` receives its node as an `interface{}`, whose
  reflected kind is always that of the dynamic value. The model's `Iface`
  constructor stands for an interface-typed field, element or map value. It
  is reported to the visitor as such, and `walk` sees its content.
- Panics are not modelled. `child.Interface()` (walker.go:68) panics on
  unexported struct fields. A nil interface-typed child reaches `walk` as
  `nil` through `Interface()`. Its kind is then invalid and nothing is
  visited, which the model gives as `Iface(Invalid)`.
- `Walker.FieldKey` drops the whole first character of the name. walker.go:25
  drops only its first byte. The two agree when that character is one byte
  long (see "Findings").
- `Walker.FieldKey` handles only the struct tag's whole `json` value. Go's
  `Tag.Get` parsing of the raw tag string is taken as already done, so the
  value, options like `,omitempty` included, is given directly.
- `Walker.ToLower` covers ASCII only. Unicode case mapping is left out
  because it needs the Unicode tables. `FieldKeyUtf8` takes the lowered rune
  as a parameter for the same reason.
- `FieldKeyUtf8.ValidUtf8` and `FieldKeyUtf8.FirstWidth` check only lead and
  continuation structure. They do not reject overlong 3- and 4-byte
  encodings, surrogates, or code points above U+10FFFF (F4 followed by 90
  to BF). Go's decoder treats each of these as single error bytes.
- The map case at walker.go:81-83 is modelled with string keys only.
  `key.String()` of a key of another kind yields a placeholder text, which
  is not modelled.
- Map iteration order, which is random in Go, is not modelled by
  enumeration. The entries are one enumeration order, and
  `MapOrderIrrelevant` shows the reported calls do not depend on which
  order.
- Slice aliasing is not modelled. `append` at walker.go:34, 65, 74 and 83
  can share backing arrays, so a visitor that keeps a `branch` or `path`
  slice may see it overwritten later by a sibling's append. The model gives
  every call its own immutable branch and path, which is the behaviour the
  visitor contract describes.
- Cyclic pointer graphs, on which the source recurses without end, are not
  modelled. Values are finite trees.
- Go arrays (`reflect.Array`) are not walked, because the switch has no case
  for them; the `Array` constructor yields no calls. Channels, functions and
  other kinds are `Scalar`.
- Visitor side effects and concurrency are not modelled. The visitor is
  represented by the sequence of its calls.
