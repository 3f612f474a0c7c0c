# cast: a verified model of its casting core

`cast` is a Go library that converts values between types. This project models
the parts of it that do more than call the standard library:

- **Integer casts** (`int.go`). `ToInt64E` switches on the dynamic type of its
  argument; its pointer cases read through the pointer, so a typed nil pointer
  panics. The narrowing wrappers `ToInt`, `ToInt8`, `ToInt16` and `ToInt32`
  truncate its result to their width. Go's two's-complement truncation is
  written out as `Ints.Wrap`.
- **Duration casts** (`duration.go`):
  - the unit table;
  - the fold of `TimeFormat` options into an `OptionArg`;
  - the integer, nil and `time.Duration` branches of `ToDurationE`. The
    product of the value and the unit base wraps around at 64 bits, and a
    nil integer pointer panics.
- **Struct conversion through an intermediate node list** (`bean.go`,
  `fastEncoding.Convert`). It has three parts, each modelled:
  - **The field resolver.** `typeFields` is a breadth-first scan over a struct
    and its embedded structs. The found fields are sorted by name, depth, tag
    and index. Go's dominance rule decides each group of same-named fields.
    The survivors are re-sorted by index, and a map from each name to its
    field is built. `parseTag`, `isValidTag`, `typeByIndex`, `dominantField`
    and `byIndex.Less` are included.
  - **The encoder.** A `MiddleValueList` holds a flat list of nodes. Each
    composite node points at a contiguous block of children. The encoder
    closures fill that list from a value, one node per value.
  - **The materializer.** `fromMiddleValue` and its helpers write the node
    list into a destination. They go through `makeValue`, which follows
    pointers, allocates nil ones and enters interfaces that hold pointers to
    pointers. `valueInterface` builds the `interface{}` a node denotes.

Go's types and values are the datatypes `GoTypes.Type` and `GoTypes.Value`. A
value carries its runtime shape, and a map carries its entries in the order an
iteration visits them, each key once (`GoTypes.UniqueKeys`, part of `HasType`). The node list is the class `Encoder.MiddleValueList`,
whose `seq` field is reassigned by its methods.

`Arena.TreeAt` reads the tree a node denotes. The encoder is proved to build
exactly `Encoder.Abstract(v)`. The materializer is given twice:

- as functions over trees (module `Materializer`), about which the lemmas of
  `WriteFacts` and `WriteTyping` are proved;
- as the loops the Go code runs over the node list (module `FromMiddle`). Each
  of these methods is proved equal to its function on `TreeAt`.

A map written into a map follows bean.go:476 as the code reads: every child is
stored under the name of the map node itself (see "## Findings"). A map node
is unnamed unless it is the child of a map entry or a struct field, so the
converted map of a top-level map has the single key "".

Reflection's mutation of a destination in place becomes a new value built from
the old one. `Materializer.Rebuild` and `FromMiddle.Unwind` put back the
pointers and fields that were walked through. A Go panic inside `reflect`
(`Set` on a read-only location, `IsNil` on a non-nillable kind, and so on) is
the result `Panic` / `Panicked`. The library is described as never letting a panic
escape `Convert`. Its code has no `recover`, so these panics do escape, and the
model follows the code.

## Model

| member | source | states |
|---|---|---|
| Ints.WrapInRange | int.go:26-50 | a truncating conversion to 8, 16, 32 or 64 bits always lands in that width's signed range |
| Ints.WrapCongruent | int.go:26-50 | the truncated value differs from the original by a multiple of 2^width |
| Ints.WrapIdentity | int.go:26-50 | a value already in range is left unchanged by the truncation |
| Ints.ToInt64EShape | int.go:61-129 | the cast panics exactly for a typed nil pointer; otherwise the result fits in an int64, and an error is returned exactly for a `time.Duration` or an unsupported type, and then the value is 0 |
| Ints.ToInt64ENil | int.go:63-64 | nil casts to 0 without error |
| Ints.ToInt64ESigned | int.go:65-84 | a signed integer, direct or behind a pointer, casts to itself without error |
| Ints.ToInt64EUnsigned | int.go:85-104 | an unsigned integer is reinterpreted as two's complement: below 2^63 it is kept, otherwise 2^64 is subtracted |
| Ints.ToInt64EBool | int.go:117-126 | true is 1, false is 0, direct or behind a pointer |
| Ints.NarrowingWrappers | int.go:26-57 | every wrapper panics exactly for a typed nil pointer; otherwise ToInt8/16/32 lie in their signed range and agree with ToInt64 modulo 2^8/2^16/2^32; ToInt equals ToInt64 |
| Ints.NarrowingKeepsSmallValues | int.go:26-57 | when the int64 result fits in 8 bits, every wrapper returns the same value (and all panic together) |
| Durations.ApplyOptions | duration.go:44-51 | folding the options leaves the time format at "ns" without options, and otherwise at the format of the last option |
| Durations.ToDurationE | duration.go:42-113 | the cast equals the conversion at the base the options select |
| Durations.BaseRange | duration.go:24-31 | the base lies between 0 and one hour in nanoseconds, and is 0 exactly when the last option names a unit missing from the table |
| Durations.NoOptionsIsNanoseconds | duration.go:43 | without options a signed integer is read as nanoseconds |
| Durations.MillisecondsScale | duration.go:44-57 | with "ms" as the last format, an integer whose product does not overflow is multiplied by 10^6 |
| Durations.UnknownUnitIsZero | duration.go:51 | an unknown unit gives base 0, so every integer casts to a zero duration |
| Durations.ResultIsInt64 | duration.go:53-112 | the cast panics exactly for a nil integer pointer; otherwise the result fits in an int64, and an error is returned exactly for a bool, a `*bool` (nil or not) or an unsupported type |
| Durations.DurationPassesThrough | duration.go:108-109 | a `time.Duration` is returned unchanged whatever the options |
| Tags.ParseTagSpec | bean.go:539-542 | the name part is the prefix of the tag before its first comma, and the whole tag when it has none |
| Tags.CheckValidTag | bean.go:544-559 | the loop accepts exactly the non-empty strings of letters, digits and allowed punctuation |
| Tags.AllTagCharsSpec | bean.go:548-557 | the scan accepts exactly the strings all of whose characters are allowed |
| Tags.ValidTagExcludesReserved | bean.go:550-555 | a valid tag name contains no quote, backslash, comma or apostrophe |
| FieldOrder.CompareIndex | bean.go:582-592 | the loop of `byIndex.Less` computes lexicographic order on index sequences, a proper prefix first |
| FieldOrder.IndexLessAsym | bean.go:582-592 | index order is asymmetric |
| FieldOrder.IndexLessTrans | bean.go:582-592 | index order is transitive |
| FieldOrder.IndexLessTotal | bean.go:582-592 | any two distinct index sequences are ordered |
| FieldOrder.PrefixIndexLess | bean.go:591 | a proper prefix comes before its extensions |
| FieldOrder.StrLessTrans | bean.go:706-708 | name order is transitive |
| FieldOrder.StrLessTotal | bean.go:706-708 | any two distinct names are ordered |
| FieldOrder.LessAsym | bean.go:701-716 | the field comparator is asymmetric |
| FieldOrder.LessIncomparable | bean.go:701-716 | fields the comparator cannot order have the same index (and, for the name order, the same name and tag) |
| FieldOrder.LessTrans | bean.go:701-716 | the field comparator is transitive |
| FieldOrder.NotLessTrans | bean.go:701-716 | "not less" is transitive, so the comparator is a strict weak order |
| FieldOrder.InsertSorted | bean.go:701-716 | inserting into a sorted list keeps it sorted |
| FieldOrder.InsertPerm | bean.go:701-716 | inserting adds exactly the inserted field |
| FieldOrder.SortSpec | bean.go:701-716 | sorting yields a sorted permutation of its input |
| FieldResolver.RunEnd | bean.go:730-735 | the run of same-named fields ends at or after its known part, and within the list |
| FieldResolver.TypeByIndexAppend | bean.go:761-769 | following one more index step is one more step of `typeByIndex` after the walk so far |
| FieldResolver.LevelDecreases | bean.go:622-699 | each level of the breadth-first scan lowers the height of the deepest queued type, so the scan ends |
| FieldResolver.ScanFieldSound | bean.go:634-696 | one step of the scan records only fields that are sound: reached by their index, not skipped, named by tag or declaration |
| FieldResolver.ScanLevelSound | bean.go:626-698 | a whole level of the scan keeps every recorded and queued field sound |
| FieldResolver.LevelsSound | bean.go:622-699 | every field the remaining levels record is sound |
| FieldResolver.CollectSound | bean.go:608-699 | every field the scan of a struct type finds is sound for that type |
| FieldResolver.ScanFieldsGrow | bean.go:633-696 | the loop over a struct's fields only appends to the fields found |
| FieldResolver.ScanLevelGrows | bean.go:626-698 | a level of the scan only appends to the fields found |
| FieldResolver.LevelsGrow | bean.go:622-699 | the remaining levels only append to the fields found |
| FieldResolver.ScanFieldsTail | bean.go:633-696 | later steps of the field loop keep what the earlier ones found |
| FieldResolver.CollectCompleteAtTop | bean.go:633-687 | every declared field of the struct that is not skipped and not an untagged embedded struct is found, under its effective name, tag flag, index `[i]` and dereferenced type |
| Dominance.RunEndSpec | bean.go:730-735 | the run covers exactly the fields sharing the first one's name |
| Dominance.GroupSurvivor | bean.go:736-743 | the first field of a run that `dominantField` keeps dominates every other field of that name |
| Dominance.GroupOthers | bean.go:777-785 | a field of a run that dominates is the run's first, and then `dominantField` keeps it |
| Dominance.DominateFromSpec | bean.go:724-744 | the dominance pass keeps exactly the dominant fields, with distinct names |
| Dominance.DominatesPerm | bean.go:701-716 | dominance does not depend on the order the fields are listed in |
| Dominance.SortUniqueNames | bean.go:747 | re-sorting by index keeps the names distinct |
| Dominance.ResolvedShape | bean.go:724-757 | the resolved fields have distinct names and are sorted by index |
| Dominance.ResolvedAreDominant | bean.go:718-747 | a field is resolved iff the scan finds it and it dominates all fields of its name |
| Dominance.ResolvedSound | bean.go:608-747 | every resolved field is sound for its struct type |
| FieldScan.FieldNamed | bean.go:754-757 | the position found holds a field of that name and no later field has it; none is found iff no field has the name |
| FieldScan.FieldNamedUnique | bean.go:754-757 | with distinct names the lookup of a field's name finds that very field |
| FieldScan.LookupTypeByIndex | bean.go:761-769 | the loop of `typeByIndex` computes the type the index path reaches, or fails where `Field` would panic |
| FieldScan.ScanAll | bean.go:610-699 | the breadth-first loop finds exactly the fields of the level-by-level scan |
| FieldScan.VisitField | bean.go:634-696 | the body of the inner loop performs one scan step |
| FieldScan.DropHidden | bean.go:724-744 | the dominance loop computes the dominance pass |
| FieldScan.RunLength | bean.go:730-735 | the advance loop reaches the end of the run |
| FieldScan.IndexByName | bean.go:754-757 | the name map holds exactly the names of the list, each at the last field of that name |
| FieldScan.TypeFields | bean.go:608-759 | `typeFields` returns the resolved fields and a name map that indexes them |
| FieldScan.ByExactNameFindsEveryField | bean.go:754-757 | every resolved field is found by its own name |
| ValueWalk.WalkTyped | bean.go:240-253 | on a well-typed value a sound index path never fails, and what it reaches has the type at that path |
| ValueWalk.FieldByIndex | bean.go:240-253 | the field walk of the struct encoder follows pointers, stopping at a nil one |
| GoTypes.ZeroHasType | bean.go:436-438 | the zero value of a type has that type |
| Arena.TreeAtFrame | bean.go:82-88 | a node's tree depends only on the nodes of its own block |
| Arena.Reserved | bean.go:179-193 | opening a node with n fresh empty children keeps the list well formed and opens a block of n empty slots |
| Arena.TreeAtItems | bean.go:282-290 | a slice node whose children denote the given trees denotes their sequence |
| Arena.TreeAtKeyed | bean.go:282-293 | a map node whose children denote the given named trees denotes their sequence |
| Encoder.MapEntriesSnoc | bean.go:213-223 | visiting one more map entry adds that entry exactly when its key is a string |
| Encoder.ResolvedAllSound | bean.go:226-253 | every field the struct encoder visits is sound for the struct type |
| Encoder.MiddleValueList.constructor | bean.go:98-100 | a fresh list holds one empty root node |
| Encoder.MiddleValueList.Reset | bean.go:77-80 | reset leaves one empty root |
| Encoder.MiddleValueList.Encode | bean.go:103-264 | encoding into an empty node makes that node denote the value's tree and changes no earlier node's tree |
| Encoder.MiddleValueList.Reserve | bean.go:179-193 | the node becomes a composite pointing at n new empty children appended at the end |
| Encoder.MiddleValueList.EncodeList | bean.go:179-197 | a slice or array node denotes its elements in order |
| Encoder.MiddleValueList.EncodeItems | bean.go:194-196 | the block's children denote the elements, child i element i, and no node before the block changes |
| Encoder.MiddleValueList.EncodeItem | bean.go:195 | encoding one element into the next empty slot of a block appends that element's tree to the trees the block denotes so far |
| Encoder.MiddleValueList.EncodeMap | bean.go:198-224 | a map node denotes its string-keyed entries in iteration order, then empty unnamed children |
| Encoder.MiddleValueList.EncodeEntries | bean.go:213-223 | the entry loop fills one child per string key; the filled children, with their names, are exactly the string-keyed entries in iteration order |
| Encoder.MiddleValueList.EncodeEntry | bean.go:216-222 | one iteration adds a child exactly for a string key, named by the key and denoting the entry's value, and leaves the earlier children alone |
| Encoder.MiddleValueList.EncodeNamed | bean.go:258-259 | encoding a value into the next slot and naming it appends that named tree to the block's named trees, leaving earlier nodes alone |
| Encoder.MiddleValueList.EncodeStruct | bean.go:225-261 | a struct node denotes its visible fields in index order, each under its name |
| Encoder.MiddleValueList.EncodeFields | bean.go:240-260 | the block's named children are exactly the resolved fields in order, child j denoting field j under its name |
| Encoder.MiddleValueList.EncodeField | bean.go:241-259 | one field appends one named child: empty behind a nil embedded pointer, the field's tree otherwise |
| Encoder.NewMiddleValueList | bean.go:92-101 | the pooled list is reset and reused, otherwise a fresh one is made; either holds one empty root |
| Materializer.Put | bean.go:477 | `SetMapIndex` stores the entry, keeps entries with other keys and adds nothing else |
| Materializer.PutUnique | bean.go:477 | on a map with unique keys `SetMapIndex` replaces: the keys stay unique and the stored key holds the new value alone |
| GoTypes.UniqueKeysLookup | bean.go:477 | in a map with unique keys, two entries under one key are the same entry |
| Materializer.FillFrom | bean.go:428-433 | the element loop keeps the destination's length |
| Materializer.Refill | bean.go:489-501 | putting a field back sets field j of the struct entered, behind the pointer when there is one (a nil pointer then refers to a new struct), keeps every other field and the struct's type |
| WriteTyping.RefillTyped | bean.go:489-501 | putting a value of field j's type back keeps the outer value's type |
| WriteFacts.DescendStops | bean.go:507-535 | `makeValue` stops at a location that is neither a pointer nor an interface it enters, and is idempotent there |
| WriteFacts.DescendWritable | bean.go:528-530 | at a writable location `makeValue` always reaches somewhere |
| WriteFacts.DescendReadOnly | bean.go:507-535 | succeeding at a read-only location allocates nothing: the place reached is the same and rebuilding gives the original value |
| WriteFacts.WriteThrough | bean.go:267-280 | every non-empty write panics where `makeValue` cannot reach a location, and otherwise writes at the location reached |
| WriteFacts.SliceThrough | bean.go:417 | a slice node writes through `makeValue` |
| WriteFacts.MapThrough | bean.go:448 | a map node writes through `makeValue` |
| WriteFacts.FillFromElems | bean.go:428-433 | the element loop succeeds iff each in-range child write does, and element j is child j's write, the rest untouched |
| WriteFacts.SliceInto | bean.go:423-433 | a slice destination becomes a new non-nil slice with one element per child, each the child written into a zero element; it fails iff the location is read-only or a child write fails |
| WriteFacts.ArrayInto | bean.go:428-439 | an array destination keeps its length, takes the children's writes and zeroes the tail; the zeroing panics at a read-only location |
| WriteFacts.ByteInto | bean.go:318 | a location that cannot be set accepts only nodes that write nothing into a scalar |
| WriteFacts.StringInto | bean.go:423-443 | a string destination is never changed by a slice node, and the write succeeds iff the byte writes do and there are enough children |
| WriteFacts.MapToMapKeys | bean.go:471-479 | corrected reference, not used by the conversion: the write succeeds iff every child writes into a zero element and the map is settable; afterwards every child's name is a key and unnamed old keys are kept; on a map with unique keys the keys stay unique and each child's name maps to the last such child's value alone |
| WriteFacts.MapToMapUnique | bean.go:471-479 | the corrected loop keeps a map's keys unique |
| WriteFacts.MapToMapAsWrittenKeys | bean.go:471-479 | as written: the write succeeds iff every child writes into a zero element and the map is settable; the map gains at most the one key that is the map node's own name and keeps every other entry; that key holds the last child's value, alone when the map's keys were unique, and they stay unique |
| WriteFacts.AsWrittenUnique | bean.go:471-479 | the loop as written keeps a map's keys unique |
| WriteFacts.MapKeyCounterexample | bean.go:476 | for the node of `map[string]int{"a":1,"b":2}`, visited in that order, the loop as written gives `{"": 2}`, and the correction gives both entries |
| WriteFacts.StructIgnoresUnknown | bean.go:485-488 | children naming no visible field leave the struct alone |
| WriteFacts.DirectField | bean.go:489-503 | a direct field is written in place, read-only when unexported, leaving the other fields alone |
| WriteFacts.SetPathOneStep | bean.go:490-501 | a step into a field of a struct that is not behind a pointer walks on into that field and puts the result back, read-only when the field is unexported |
| WriteFacts.PromotedThroughNilPointer | bean.go:489-503 | a field promoted through a nil embedded pointer: an exported pointer is set to a new zero struct whose field k receives the child; an unexported one cannot be set, so the struct is unchanged unless writing into the invalid location panics |
| WriteFacts.PromotedThroughPointer | bean.go:489-503 | a field promoted through a non-nil embedded pointer: field k of the struct it refers to receives the child, exported pointer or not, and nothing else changes |
| WriteTyping.PutTyped | bean.go:477 | storing a well-typed entry keeps the map well typed |
| WriteTyping.ValueInterfaceTyped | bean.go:282-298 | the value a node denotes is a valid `interface{}` |
| WriteTyping.ArrayInterfaceTyped | bean.go:300-306 | `arrayInterface` yields `interface{}` elements |
| WriteTyping.ObjectInterfaceTyped | bean.go:308-314 | `objectInterface` yields a `map[string]interface{}` |
| WriteTyping.DescendTyped | bean.go:507-535 | a value of the type found at the bottom, put back through the layers, restores the outer type |
| WriteTyping.FromTreeTyped | bean.go:267-280 | writing a node never changes the destination's type |
| WriteTyping.FillTyped | bean.go:428-433 | the element loop keeps each element's type |
| WriteTyping.SliceTyped | bean.go:418-444 | a slice write keeps the destination's type |
| WriteTyping.MapTyped | bean.go:449-468 | a map write keeps the destination's type |
| WriteTyping.MapToMapTyped | bean.go:471-479 | the map loop keeps the map's type |
| WriteTyping.MapToStructTyped | bean.go:481-505 | the struct loop keeps the struct's type |
| WriteTyping.SetPathTyped | bean.go:489-503 | writing at the end of an index path keeps the outer value's type |
| FromMiddle.MakeValue | bean.go:507-535 | the loop computes the descent `makeValue` specifies |
| FromMiddle.FromSimple | bean.go:316-318 | `fromSimple` is `makeValue` then `Set` |
| FromMiddle.ValueInterface | bean.go:282-298 | the method over the node list computes the `interface{}` value of the node's tree |
| FromMiddle.ArrayInterface | bean.go:300-306 | the loop over the children computes `arrayInterface` |
| FromMiddle.ObjectInterface | bean.go:308-314 | the loop over the children computes `objectInterface` |
| FromMiddle.FromMiddleValue | bean.go:267-280 | writing node k computes the write of the tree it denotes |
| FromMiddle.FillChildren | bean.go:428-433 | the loop writes each child into its element |
| FromMiddle.ZeroTail | bean.go:434-439 | the elements from n on become zero, the others are kept |
| FromMiddle.FromSlice | bean.go:412-445 | `fromSlice` over the node list computes the slice write |
| FromMiddle.FromMap | bean.go:447-469 | `fromMap` over the node list computes the map write, map-to-map as written |
| FromMiddle.SliceAt | bean.go:418-444 | the slice write at the location `makeValue` reached, over the node list, computes the tree-level write |
| FromMiddle.MapAt | bean.go:449-468 | the map write at the location `makeValue` reached, over the node list, computes the tree-level write, map-to-map as written |
| FromMiddle.FromMapToMap | bean.go:471-479 | the loop computes the map write as written, every child stored under the name of the map node |
| FromMiddle.FromMapToStruct | bean.go:481-505 | the loop computes the struct write, through the name map of the resolved fields |
| FromMiddle.UnwindSnoc | bean.go:489-501 | putting back one more step of the walk is putting the inner field back first |
| FromMiddle.SetPath | bean.go:489-503 | the index-path loop then the write compute the write at the field's location |
| Convert.ValueOfAny | bean.go:49-53 | `reflect.ValueOf` of an `any` is never an interface: a held value is unwrapped and a nil one is invalid |
| Convert.Converted | bean.go:48-61 | on the values `reflect.ValueOf` gives for source and destination, a nil or invalid source leaves the destination alone; a non-nillable source panics in `IsNil`; the error is returned iff the source is non-nil and the destination is not a non-nil pointer |
| Convert.ConvertThroughAny | bean.go:53-54 | a pointer destination given inside an `any` converts exactly as the pointer itself |
| Convert.Convert | bean.go:48-61 | the encoder then the materializer over the pooled or fresh list compute the conversion |
| Convert.RoundTrip | bean.go:48-61 | encoding a plain value (scalars, non-nil pointers, non-nil slices and arrays of them) and writing it into a zero value of its type gives the value back |
| Convert.ItemsRoundTrip | bean.go:428-433 | each element of a plain sequence round-trips |
| Convert.ConvertCopies | bean.go:48-61 | converting a plain non-nil value into a pointer to a zero value of its type copies it |
| Convert.AbstractTyped | bean.go:173-178 | every leaf the encoder makes holds a well-typed scalar |
| Convert.ConvertKeepsType | bean.go:48-61 | a completed conversion keeps the destination's type |
| Convert.ValueInterfaceTotal | bean.go:282-298 | `valueInterface` of an encoded tree never panics |
| Convert.ArrayInterfaceTotal | bean.go:300-306 | `arrayInterface` never panics and has one element per child |
| Convert.ObjectInterfaceTotal | bean.go:308-314 | `objectInterface` never panics |
| Convert.IntoInterface | bean.go:419-421 | converting into a pointer to a nil `interface{}` never panics and stores the value the source's tree denotes |
| Convert.ConvertMapCollapses | bean.go:471-479 | converting `map[string]int{"a":1,"b":2}`, visited in that order, into a pointer to an empty `map[string]int` completes with `{"": 2}` |

## Left out

- The caches (`encoderCache`, `fieldCache`, `cachedTypeFields`) and the `sync.WaitGroup` handshake for recursive types are left out. They do not change what is computed, and the model has no recursive named types.
- `middleValueListPool` is the parameter `pooled` of `Encoder.NewMiddleValueList` and `Convert.Convert`. The deferred `Put` back into the pool is left out.
- `jsonEncoding.Convert` is left out. It round-trips through `encoding/json`, which is not part of this model. So are `time.go`, `string.go` and the generic `To` of `cast.go`.
- Ints: Go's `int` and `uint` are taken to be 64 bits wide, as on the 64-bit platforms. This is what makes `ToInt` equal `ToInt64` and fixes the range of `uint`; 32-bit platforms are not modelled.
- Ints: float, string and `*string` arguments are left out. Float truncation and `strconv.ParseInt` are not modelled. `Ints.WellFormed` keeps the type names of every case of the switch, these among them, out of the "unsupported type" argument.
- Durations: the float and string branches of `ToDurationE` are left out, for the same reason. `time.ParseDuration` is not modelled.
- Struct tags are already the value of their `json` key. `reflect.StructTag.Get` is not modelled.
- `unicode.IsLetter` and `unicode.IsDigit` are ASCII only.
- Strings are sequences of characters, one byte each. A string's length is its byte length only for ASCII text.
- Named scalar types are not modelled. The panic of `SetMapIndex` for a string key of a named key type is not captured.
- Materializer.FromSlice: a destination of a kind outside the model, such as a channel, is modelled as a panic. Go leaves a channel with an empty buffer alone: its `Len` is 0, so neither `Index` nor `SetLen` is reached.
- Materializer.Descend: the guard against an interface that points to its own address (bean.go:521-527) is left out, because tree values cannot be cyclic.
- Materializer.FromTree: the `default: log` branches are left out. No node has another type.
- Materializer.FromTree: every location reached is assumed addressable. Read-only access is one flag, set by unexported fields. Go tracks it separately for embedded and non-embedded fields. The two differ only for arrays reached through a read-only location, which field resolution does not produce.
- In-place mutation and aliasing are left out. A destination is a value, and each write builds the new value (`Materializer.Rebuild`, `FromMiddle.Unwind`), so sharing between two destinations is not captured.
- Maps are entry sequences in iteration order. The order in which Go visits a map is whichever sequence is given.
- Convert.Converted: the contents of the error are left out. bean.go:55 builds `json.InvalidUnmarshalError` from `reflect.TypeOf(destValue)`, the type of the `reflect.Value` wrapper rather than of `dest`, so every rejected destination gets the same message; `ConvertResult.InvalidUnmarshalError` carries nothing.
- Convert.Converted requires a well-typed source value. Reflection values ill-typed for their own type do not exist in Go.
- Convert.RoundTrip is stated for plain values only. Maps, structs and interfaces do not round-trip in general: maps because of bean.go:476, structs because unexported fields are not encoded, and a nil slice because it comes back as an empty non-nil one (bean.go:423-425).
- FieldResolver.CollectCompleteAtTop: completeness is proved for the fields declared in the struct itself. For fields promoted from embedded structs only soundness is proved, because the scan may pass over an embedded type already visited.

## Findings

| source | as written | input that shows it | evidently intended | confidence | as-written member | corrected member |
|---|---|---|---|---|---|---|
| bean.go:476 | `fromMapToMap` uses `p.Name`, the name of the map node itself, as the key for every child | converting `map[string]int{"a": 1, "b": 2}` into an empty `map[string]int` yields `{"": v}`, where v is the value of the entry the iteration visits last (`{"": 2}` when "b" comes last); under a struct field `M` the key is "M" | each child is stored under its own name, `l.List[p.First+i].Name`, giving `{"a": 1, "b": 2}` | high, not executed | Convert.ConvertMapCollapses | WriteFacts.MapToMapKeys |

The conversion follows the code as written: `Materializer.FromMapToMapAsWritten`
is what `Materializer.MapAt` and `FromMiddle.FromMapToMap` compute, and
`WriteFacts.MapToMapAsWrittenKeys` proves that it adds at most the one key.
`WriteFacts.MapKeyCounterexample` exhibits the discrepancy at the level of the
loop. The corrected `Materializer.FromMapToMap` is kept as the reference the
evidently intended property, `WriteFacts.MapToMapKeys`, is proved about.
