# Uju, proved

A model of four parts of Uju, a game-server framework with its own schema language (`.uju`), wire
format, and entity-component storage, with proofs of what they promise.

**The wire codec.** `uju-protoc` turns a schema into a Rust encoder, validator, and zero-copy view.
The model runs what the generated code does as interpreters over the schema type: `Codec.Enc` is the
bytes the encoder writes, `Codec.Valid` what the validator accepts, `Codec.Read` what the view reads
without checking. That `Read` is total on valid bytes is that no unchecked read leaves them.
`Layouts`, `Objects`, `Sequences`, `Scalars`, and `Types` define the parts; `RoundTrips`, `Canonical`,
and `SizeBounds` prove that encodings round trip, are unique, and never overflow what the compiler
decided, and `Tightness` that what it decided is no larger than it must be. `Floats` and `Texts` say
what the checks of floats and text mean, and `WireExamples` holds the documented encodings byte by
byte. `Writers`, `Encoders`, `EncodedSizes`, `Validators`, and `Readers` are the same code as it
runs, patching a buffer and walking offsets, each step proved against the interpreters, and `Messages`
puts the ends together.

**The compiler.** `Schemas` is the lowered schema as a graph of declarations. `Cycles` is the
three-colour search for recursive types, `FixedSizes` the fixed-size decision that runs before it,
`Builders` the layout builder that runs after, and `Lowering` the phases in order, which let through
exactly the schemas that the codec's theorems are about. `Traits` and `Roles` are the fixpoint and the
marking closure that decide what is generated.

**Entities.** `SparseArrays`, `SparseSets`, and `SparseBitsets` refine maps and sets; `Entities`,
`Registries`, and `Worlds` keep handles, ids, and components apart over any run of their methods;
`Clusters` follows ids across shards, migrations, and restarts; `Joins` is the query iterator.

**Time and streams.** `Calendar` and `Timestamps` are the timestamp literals, `Framing` the TCP
receive loop.

## Where the code and its documentation differ

- The encoder writes a collection of zero-size items as its count without looking at them
  (`crates/uju-protoc/src/backend/rust/encode.rs:322-324`). A `vec<string[min_length=0, max_length=0]>`
  holding a string that is not empty therefore encodes, and reads back as empty strings. The model keeps
  this. `Messages.CountedItemsUnchecked` is the input, and `Messages.RoundTripExactly` says when what is
  encoded reads back: exactly when the value meets its type's constraints.
- A width is documented as one byte when the largest encoding is at most 255 bytes
  (`docs/protocol/wire-format.md:144-147` and `:257-258`). The compiler takes a collection with
  `max_length = 0` of items without a maximum for unbounded (`crates/uju-protoc/src/ir/wire.rs:727-745`),
  although each value takes one byte, so what holds it has wider boundaries or prefixes than documented.
  The model keeps this. `Tightness.CollectionMaxExactly` says that no other collection has this
  exception, and `Tightness.MaxExactly` that the maximum is exact elsewhere.
- `Without` is documented as needing one other term in the query
  (`crates/uju/src/ecs/query.rs:28-31`). That is not enough: a tuple always asks its first term for its
  entities, so `(Without<B>, A)` panics, and `(A, (Without<B>, With<C>))` panics once fewer entities
  have `C` than `A`. `Joins.PanicsExactly` gives the exact condition for any nesting, from the sizes of
  the tables, and `Joins.NeverPanicsExactly` which queries never panic whatever the tables hold;
  `Joins.FlatPanics` and `Joins.NestedFilterPanics` are the two shapes above.

## Conventions

A value is checked shallowly by the encoder (`Codec.Checked`) and fully by its type (`Codec.Meets`).
`Types.Wf` is what lowering checks of a type as written, `Types.Good` what laying it out adds.
Sets and maps are their entries in iteration order, since the validator does not reject duplicates. A
panic of the original is a precondition where the caller is to avoid it, an absent result in `Joins`
where the model says exactly when it happens. `hide` statements in proofs only keep definitions out of
the solver's way, and `{:induction false}` on a lemma says that its proof is its body: the solver is
given no induction hypothesis of its own choosing.

## Model

| member | source | states |
|---|---|---|
| Messages.Encodes | crates/uju-protoc/src/backend/rust/encode.rs:80-165 | a constraint-meeting value whose encoding is at most 65535 bytes, with no more than 65535 items in any collection of zero-size items, always encodes, is accepted, and reads back as itself, for every schema type that lays out |
| Messages.RoundTripExactly | crates/uju-protoc/src/backend/rust/encode.rs:237-378 | what the encoder writes is accepted and reads back as the value encoded if and only if the value meets every constraint of its type |
| Messages.CountedItemsUnchecked | crates/uju-protoc/src/backend/rust/encode.rs:322-324 | the encoder only counts zero-size items: a non-empty string among items that must be empty encodes, and does not read back |
| Messages.Encode | crates/uju/src/net/wire.rs:1620-1631 | encoding succeeds exactly when the value passes the encoder's checks, its lengths fit their widths, and its encoding fits both the buffer and 65535 bytes; the bytes left are that encoding, and each other failure says which of the two was short |
| Messages.Send | crates/uju-protoc/src/backend/rust/view.rs:225-375 | through the stepwise encoder and validator: a constraint-meeting value within the limits is written, accepted, and read back, and no value violating its constraints reads back as itself |
| RoundTrips.RoundTrip | crates/uju-protoc/src/backend/rust/view.rs:71-154 | by induction over types: the encoding of a constraint-meeting value that fits its widths is valid, and its view reads the value |
| RoundTrips.StructRoundTrip | crates/uju-protoc/src/backend/rust/view.rs:81-154 | round trip of structs: every accessor finds its field's value, flag, or absence |
| RoundTrips.PackedRoundTrip | crates/uju/src/net/wire.rs:1518-1528 | round trip of items of one size back to back, whose count is recovered from the length |
| RoundTrips.CountedRoundTrip | crates/uju/src/net/wire.rs:1532-1540 | round trip of zero-size items, of which only the count is stored |
| RoundTrips.PrefixedRoundTrip | crates/uju/src/net/wire.rs:1790-1810 | round trip of items behind their lengths, the last without one |
| RoundTrips.PairRoundTrip | crates/uju/src/net/wire.rs:1265-1270 | round trip of a map's entry, a fixed-size key then the value |
| RoundTrips.UnionRoundTrip | crates/uju-protoc/src/backend/rust/view.rs:885-913 | round trip of unions: the tag read is the one written, so always a declared one |
| RoundTrips.MeetsChecked | crates/uju-protoc/src/backend/rust/encode.rs:237-378 | a value meeting all its constraints passes every check the encoder makes |
| WireExamples.RequestEncodes | docs/protocol/wire-format.md:165-194 | the documented request, of a biased integer, a string, and a list of strings, encodes to the 10 bytes shown |
| WireExamples.RequestLayout | docs/protocol/wire-format.md:174-181 | its largest encoding is 252 bytes, so its boundary takes one byte and its head two |
| WireExamples.PatchEncodes | docs/protocol/wire-format.md:196-214 | the documented patch, all optional, encodes to the 3 bytes shown: a bitmap and the one number present |
| WireExamples.AddEncodes | docs/protocol/wire-format.md:288-304 | the documented union variant with fields encodes to the 6 bytes shown, the tag first |
| WireExamples.RemoveEncodes | docs/protocol/wire-format.md:288-304 | the variant of one value encodes to its tag and that value |
| WireExamples.ClearEncodes | docs/protocol/wire-format.md:288-304 | the variant without data encodes to its tag alone |
| Canonical.Canonical | crates/uju-protoc/src/backend/rust/view.rs:227-375 | bytes the validator accepts are exactly the encoding of the value the view reads, itself a value of the owned type meeting every constraint |
| Canonical.Bijection | crates/uju-protoc/src/backend/rust/view.rs:225-375 | valid bytes and constraint-meeting values correspond one to one: `b` is valid and reads as `v` if and only if `b` is the encoding of `v` |
| Canonical.UnionCanonical | crates/uju-protoc/src/backend/rust/view.rs:833-880 | an accepted union is its tag followed by the one encoding of its variant's data |
| Objects.AssembledValid | crates/uju-protoc/src/backend/rust/view.rs:231-375 | every object the encoder lays out passes the object's own checks: unused bits, absent flags, optionals in bounds, boundaries, empty absent slots |
| Objects.ExtractAssembled | crates/uju-protoc/src/backend/rust/view.rs:97-152 | each accessor finds in an assembled object exactly the part it was assembled from |
| Objects.AssembleDisassembled | crates/uju-protoc/src/backend/rust/view.rs:257-373 | an object passing the checks is rebuilt, byte for byte, from what its accessors find: no other encoding of the same fields is accepted |
| Objects.SlotSafe | crates/uju/src/net/wire.rs:813-832 | in a validated object each slot has begin <= end <= length |
| Objects.OptionalSafe | crates/uju/src/net/wire.rs:799-807 | in a validated object a present optional value lies within the bytes |
| Objects.ExtractFits | crates/uju-protoc/src/backend/rust/view.rs:109-125 | a fixed-size accessor always finds exactly its cell's number of bytes |
| Objects.AssembledSize | crates/uju-protoc/src/backend/rust/encode.rs:131-141 | an object takes its head, its present optionals, and its var section |
| Sequences.SplitJoined | crates/uju/src/net/wire.rs:1790-1810 | prefixed items written one after another split back into themselves |
| Sequences.JoinSplit | crates/uju/src/net/wire.rs:1544-1576 | bytes that split into prefixed items are exactly those items behind their lengths, so they fill their range |
| Sequences.ChunksOfFlat | crates/uju/src/net/wire.rs:1518-1528 | items of one size laid back to back are recovered by position |
| Sequences.FlatOfChunks | crates/uju/src/net/wire.rs:1518-1528 | cutting bytes into items of one size loses none of them |
| Scalars.IntRoundTrip | crates/uju-protoc/src/ir/wire.rs:96-122 | an integer within its bounds, stored natively or as its distance from the minimum, is accepted and read back |
| Scalars.IntCanonical | crates/uju/src/net/wire.rs:549-562 | stored bytes accepted for an integer are the one encoding of the value they read as, which is within the bounds |
| Scalars.BiasedRaw | crates/uju-protoc/src/backend/rust/encode.rs:251-262 | for a value in range the wrapping subtraction and the truncating cast give the plain difference, and it fits the narrow width |
| Scalars.ReprLeast | crates/uju-protoc/src/ir/wire.rs:96-122 | an integer takes a width if and only if that is at least the least one holding every distance from its minimum, and is biased only when this is narrower than its type |
| Scalars.MaxDuration | crates/uju-protoc/src/ir/lower.rs:1197-1199 | the runtime's largest duration is the compiler's, 10000 Julian years of 365.25 days |
| Floats.FloatExactly | crates/uju/src/net/wire.rs:1480-1500 | by value: a float passes if and only if it is a NaN or an infinity only where allowed, and otherwise lies between the bounds as real numbers do (sections 3.3 and 3.4 of IEEE 754) |
| Floats.OrderExactly | crates/uju/src/net/wire.rs:1499-1499 | floats compare by sign and magnitude exactly as their values do, zeros of either sign being equal |
| Floats.KindsExactly | crates/uju/src/net/wire.rs:1489-1498 | the magnitudes past that of infinity are exactly the NaNs |
| Scalars.AtomRoundTrip | crates/uju-protoc/src/backend/rust/encode.rs:239-282 | every scalar meeting its constraints, enums, floats, times, and entities included, is accepted and read back |
| Scalars.AtomCanonical | crates/uju-protoc/src/backend/rust/view.rs:379-409 | bytes accepted as a scalar are the encoding of the constraint-meeting value they read as |
| Scalars.EntityRoundTrip | crates/uju/src/ecs/entity.rs:112-124 | an entity's index and generation survive packing into 64 bits, and its last four bytes are never all zero |
| Scalars.HighHalf | crates/uju/src/net/wire.rs:1438-1443 | an entity's last four bytes are its generation, so checking them rules out exactly generation 0 |
| Bytes.LeReads | crates/uju/src/net/wire.rs:346-348 | an integer in its range reads back from its little-endian bytes |
| Bytes.LeWrites | crates/uju/src/net/wire.rs:346-348 | bytes are the little-endian form of the integer they read as, so that form is unique |
| Bytes.SetBit | crates/uju-protoc/src/backend/rust/types.rs:401-403 | setting a bit of a bitmap sets that bit and leaves every other one as it was |
| Bytes.BitsDetermine | crates/uju/src/net/wire.rs:785-787 | two bitmaps with the same bits are the same bytes |
| Bytes.HighBitsClear | crates/uju/src/net/wire.rs:1391-1396 | a last bitmap byte with no unused bit set is nothing past its used ones, so the masked check asks for just those bits |
| Codec.Enc | crates/uju-protoc/src/backend/rust/encode.rs:237-378 | an encoding of a fixed-size type has exactly that type's size |
| Codec.EmptyValid | crates/uju-protoc/src/backend/rust/view.rs:500-503 | zero bytes are always valid for a type of size zero, so items that are only counted need no check |
| Codec.PrefixWidth | crates/uju-protoc/src/ir/wire.rs:700-725 | an item's length prefix takes one or two bytes, its type's maximum being within a message when there is one |
| Codec.FixedObject | crates/uju-protoc/src/ir/wire.rs:618-622 | an object without optionals or var fields takes exactly its head |
| Codec.PairFixed | crates/uju-protoc/src/ir/wire.rs:704-712 | a map entry is fixed-size only when key and value are, and then takes the sum of theirs without saturating |
| Types.FixedSmall | crates/uju-protoc/src/ir/wire.rs:638-647 | a fixed-size type nothing is reported about fits a message; a map's entry is two such types |
| Types.ValidUpTo | crates/uju/src/net/wire.rs:1458-1463 | the offset reported for malformed text is at most the length, and equals it exactly for well-formed UTF-8 (section 3.9 of the Unicode Standard) |
| Texts.Utf8Exactly | crates/uju/src/net/wire.rs:1458-1463 | text is well formed if and only if it is the bytes of some Unicode scalar values, one after another (section 3.9 of the Unicode Standard) |
| Texts.ValidUpToLongest | crates/uju/src/net/wire.rs:1461-1461 | the offset reported ends the longest start of the text that is well formed |
| Types.SequenceLeast | crates/uju-protoc/src/ir/wire.rs:715-723 | a count and a length prefix take the least width for the lengths the collection and its items may have within a message |
| Types.TagLeast | crates/uju-protoc/src/ir/wire.rs:490-490 | a union's tag takes the least width that holds a tag for each variant |
| SizeBounds.EncodingMax | crates/uju-protoc/src/ir/wire.rs:656-745 | an encoding never exceeds the maximum computed for its type, and is exactly the size of a fixed one |
| SizeBounds.ObjectMax | crates/uju-protoc/src/ir/wire.rs:580-624 | an object within its fields' maxima is within its own |
| SizeBounds.BoundariesHold | crates/uju-protoc/src/ir/wire.rs:597-601 | no boundary overflows its width: two-byte ones within a message, and one-byte ones wherever the layout chose them |
| SizeBounds.FitsWidths | crates/uju/src/net/wire.rs:1682-1709 | for a value encoding within a message, every count, prefix, and boundary fits its width if and only if no collection of zero-size items holds more than 65535 |
| SizeBounds.CountHolds | crates/uju-protoc/src/ir/wire.rs:53-57 | a collection length its constraint allows fits the count's width if and only if it is at most 65535 |
| SizeBounds.UnionMax | crates/uju-protoc/src/ir/wire.rs:489-521 | a union takes at most its tag and its largest variant |
| Tightness.BoundaryLeast | crates/uju-protoc/src/ir/wire.rs:597-601 | boundaries take one byte if and only if no object of such fields, laid out with one-byte boundaries, is larger than 255 bytes |
| Tightness.MaxExactly | crates/uju-protoc/src/ir/wire.rs:656-745 | the maximum computed for a type is exact: below the message size it is at most `n` if and only if every constraint-meeting value encodes to at most `n` bytes, for types whose every part has a value and that hold no empty collection of unbounded items |
| Tightness.Largest | crates/uju-protoc/src/ir/wire.rs:656-745 | a constraint-meeting value as large as the maximum, or as a message where there is none |
| Tightness.CollectionMaxExactly | crates/uju-protoc/src/ir/wire.rs:727-745 | for a collection the exception is exact: `max_length = 0` over unbounded items, if and only if it is taken for unbounded though each value takes one byte |
| EncodedSizes.ValueSize | crates/uju-protoc/src/backend/rust/encode.rs:380-422 | the size computed for a value the encoder takes is the number of bytes of its encoding |
| EncodedSizes.ObjectSizeOf | crates/uju-protoc/src/backend/rust/encode.rs:8-43 | the size of an object: its head, its present optionals, and each slot's own size |
| EncodedSizes.PrefixedSize | crates/uju/src/net/wire.rs:1813-1821 | the size of prefixed items: the count, the items, and a prefix for each but the last |
| EncodedSizes.VariantSize | crates/uju-protoc/src/backend/rust/encode.rs:168-197 | the size of a union's data is the size of its variant's |
| Writers.Writer.constructor | crates/uju/src/net/wire.rs:1642-1644 | a new writer has written nothing |
| Writers.Writer.Put | crates/uju/src/net/wire.rs:1653-1663 | appends the bytes exactly when the buffer has room, and otherwise leaves what was written |
| Writers.Writer.ZerosAt | crates/uju/src/net/wire.rs:1667-1678 | appends zeros and returns where they start, exactly when there is room |
| Writers.Writer.Patch | crates/uju/src/net/wire.rs:1689-1702 | overwrites bytes already written with the value, exactly when it fits the width, and changes no other byte |
| Writers.Writer.Len | crates/uju/src/net/wire.rs:1682-1685 | appends a length: out of room is reported before a length too large |
| Writers.Writer.End | crates/uju/src/net/wire.rs:1707-1710 | writes a slot's boundary as the distance from the object's start, exactly when it fits |
| Encoders.Write | crates/uju-protoc/src/backend/rust/encode.rs:237-378 | writing any value appends exactly its encoding, or fails for a reason that holds: a check, a width, or the buffer |
| Encoders.WriteObject | crates/uju-protoc/src/backend/rust/encode.rs:80-165 | the five passes over an object's fields, boundaries patched in last, append exactly the object's encoding |
| Encoders.PackBitmap | crates/uju-protoc/src/backend/rust/encode.rs:88-120 | the bitmap built bit by bit holds each flag and each presence at its slot's bit, and no other bit |
| Encoders.SetFieldBits | crates/uju-protoc/src/backend/rust/encode.rs:93-117 | one field sets the bits of its slot its value calls for and leaves the others |
| Encoders.WriteSection | crates/uju-protoc/src/backend/rust/encode.rs:122-141 | a pass over the fixed or the optional fields appends their encodings in declaration order |
| Encoders.WriteVars | crates/uju-protoc/src/backend/rust/encode.rs:142-164 | the var section's pass appends each slot and patches every boundary but the last slot's, leaving the bytes before it unchanged |
| Encoders.EndSlot | crates/uju-protoc/src/backend/rust/encode.rs:155-163 | ending a slot fills in its boundary with the end of that slot, none of those already filled |
| Encoders.WritePrefixed | crates/uju/src/net/wire.rs:1790-1810 | prefixed items: the count, each length patched in behind its item, and none for the last |
| Encoders.WriteBehindLength | crates/uju/src/net/wire.rs:1803-1806 | an item is preceded by its own length, measured after writing it |
| Encoders.WriteAll | crates/uju-protoc/src/backend/rust/encode.rs:301-305 | the items of an array or packed collection are appended in order |
| Encoders.RawBytesEnc | crates/uju-protoc/src/backend/rust/types.rs:357-363 | writing a run of plain bytes whole is writing each item in turn |
| Encoders.WriteItems | crates/uju-protoc/src/backend/rust/encode.rs:307-363 | the items of a collection take the form its layout chose: packed, counted, or prefixed |
| Encoders.WriteUnion | crates/uju-protoc/src/backend/rust/encode.rs:201-234 | a union is its tag, one more than the variant's index, then the variant's data |
| Encoders.FloatCheck | crates/uju/src/net/wire.rs:1727-1746 | the encoder's float check passes exactly the floats the type's bounds admit |
| Validators.Validate | crates/uju/src/net/wire.rs:1341-1346 | a message is accepted exactly when it is within the message size and is one valid encoding; otherwise the reported offset is within it |
| Validators.ValidateObject | crates/uju-protoc/src/backend/rust/view.rs:227-375 | the checks emitted for an object, in their order, accept exactly its valid bytes |
| Validators.CheckFixed | crates/uju-protoc/src/backend/rust/view.rs:379-439 | the checks emitted for a fixed-size type accept exactly the valid bytes of that size |
| Validators.CheckVar | crates/uju-protoc/src/backend/rust/view.rs:443-571 | the checks emitted for a variable-size type accept exactly its valid bytes |
| Validators.CheckUnion | crates/uju-protoc/src/backend/rust/view.rs:833-880 | the emitted tag dispatch accepts exactly a declared tag with its variant's valid data |
| Validators.CheckPrefixed | crates/uju/src/net/wire.rs:1544-1576 | the walk over prefixed items accepts exactly bytes they fill, each valid, and returns their count |
| Validators.CheckCollection | crates/uju-protoc/src/backend/rust/view.rs:456-560 | the checks of a collection, with its loop or length left out where they are, accept exactly its valid bytes |
| Validators.CheckOptionals | crates/uju-protoc/src/backend/rust/view.rs:304-331 | the running position of the optionals ends where the var section starts, and each one present is in bounds and valid |
| Validators.CheckBits | crates/uju-protoc/src/backend/rust/view.rs:243-271 | the unused-bit and absent-flag checks accept exactly bitmaps no value has another of |
| Validators.UsedBits | crates/uju-protoc/src/backend/rust/view.rs:243-256 | one past the last bit any slot claims is the number of bits claimed |
| Validators.ReadBoundaries | crates/uju/src/net/wire.rs:1582-1601 | the loop returns the boundaries exactly when each lies between the one before and the end |
| Validators.CheckSlot | crates/uju-protoc/src/backend/rust/view.rs:345-374 | a slot is checked over the range its boundaries give, and must be empty when its value is absent |
| Validators.FixedElided | crates/uju-protoc/src/backend/rust/view.rs:377-439 | where no check of a fixed-size type is emitted, every byte pattern of its size is valid |
| Validators.VarElided | crates/uju-protoc/src/backend/rust/view.rs:441-571 | where no check of a variable-size type is emitted, every byte string is valid |
| Validators.StructElided | crates/uju-protoc/src/backend/rust/view.rs:573-608 | where a fixed-size struct needs no checks, every byte pattern of its size is valid |
| Validators.ScalarElided | crates/uju-protoc/src/backend/rust/types.rs:292-298 | an integer without a range check admits every bit pattern of its width, and so does each other unchecked scalar |
| Validators.ScalarVerdict | crates/uju-protoc/src/backend/rust/view.rs:381-409 | the check chosen for a scalar accepts exactly its valid bytes |
| Readers.FindOffset | crates/uju/src/net/wire.rs:799-807 | the loop gives the offset of the k-th optional value: the head plus the sizes of those present before it |
| Readers.FindSlot | crates/uju/src/net/wire.rs:813-832 | with ordered boundaries the range of a slot is in bounds and never inverted, and no boundary is read outside the bytes |
| Readers.RawItems.constructor | crates/uju/src/net/wire.rs:1080-1088 | over a validated collection the iterator will give exactly its items |
| Readers.RawItems.Next | crates/uju/src/net/wire.rs:1132-1147 | each step gives the next item and keeps the rest splittable, so no split runs past the end |
| Readers.PrefixedParts | crates/uju/src/net/wire.rs:1053-1099 | a validated collection of prefixed items holds as many as its count, each valid for its own type, and is read as those |
| Readers.ReadItems | crates/uju/src/net/wire.rs:1161-1169 | iterating the items reads each one once, in order, as a value of the element type |
| Readers.ReadPrefixed | crates/uju/src/net/wire.rs:1165-1169 | iterating a validated collection of prefixed items gives the values its view reads |
| Readers.EntryHoldsKey | crates/uju/src/net/wire.rs:1265-1270 | each entry of a validated prefixed map holds its whole key, so the split is in bounds, and key and value are each valid |
| Layouts.LayoutWellFormed | crates/uju-protoc/src/ir/wire.rs:532-594 | in a layout whose head fits: bits dense from 0 without overlap, fixed fields tiling exactly the bytes from the bitmap to the boundaries, and var slots numbered from 0, all in declaration order |
| Layouts.HeadWellFormed | crates/uju-protoc/src/ir/wire.rs:579-635 | the head is the bitmap, the fixed fields, and a boundary per var field but one, within a message; no offset is cut by its cast to 32 bits |
| Layouts.WidthHolds | crates/uju-protoc/src/ir/wire.rs:40-51 | the width chosen for a maximum holds every value up to it |
| Layouts.LengthHolds | crates/uju-protoc/src/ir/wire.rs:53-57 | a length within a bound, or within a message without one, takes one or two bytes and fits them |
| Layouts.WidthLeast | crates/uju-protoc/src/ir/wire.rs:40-51 | a width is chosen if and only if no narrower one holds every value up to the maximum |
| Layouts.LengthLeast | crates/uju-protoc/src/ir/wire.rs:53-57 | the same of a length within its bound, or within a message without one |
| Layouts.FixedHead | crates/uju-protoc/src/ir/wire.rs:596-622 | an object of fixed size has no boundaries, optionals, or slots |
| Schemas.RankedAcyclic | crates/uju-protoc/src/ir/lower.rs:1122-1124 | a schema whose references all lead to lower numbers has no recursive type |
| Schemas.DeclRefsOk | crates/uju-protoc/src/ir/lower.rs:1134-1160 | every reference the cycle check follows leads to a declaration types may name |
| Schemas.RefsExactly | crates/uju-protoc/src/ir/lower.rs:1183-1195 | the references followed from a declaration are exactly the names its values are made of, however deep in collections |
| Cycles.Checker.constructor | crates/uju-protoc/src/ir/lower.rs:1125-1126 | before the walk everything is white and nothing is reported |
| Cycles.Checker.Visit | crates/uju-protoc/src/ir/lower.rs:1134-1180 | visiting blackens the declaration, adds to what was entered, left, and reported, and keeps the walk's invariant: depth first, each declaration left refers only to ones left before or reported |
| Cycles.Checker.CheckCycles | crates/uju-protoc/src/ir/lower.rs:1125-1132 | what is reported is exactly every declaration that is entered first, depth first, of some cycle; so every cycle has one reported, something is reported if and only if a type is recursive, and a silent check gives a numbering along all references |
| Cycles.DepthFirstUnique | crates/uju-protoc/src/ir/lower.rs:1125-1163 | there is one order of entering the declarations depth first, so what is reported is determined |
| Cycles.CloseCycle | crates/uju-protoc/src/ir/lower.rs:1165-1176 | a reference to a declaration still being visited closes a cycle of which that one was entered first |
| FixedSizes.Resolve | crates/uju-protoc/src/ir.rs:360-372 | the bounded loop gives what following that many names gives, on every schema |
| FixedSizes.ResolvedIsScalar | crates/uju-protoc/src/ir.rs:358-372 | without recursion the bound is never what stops it: the result is no named `type`, and is `bool` exactly for a `bool` behind any number of names |
| FixedSizes.FixedChecker.IsFixedIn | crates/uju-protoc/src/ir.rs:384-416 | the traversal ends on every schema, recursive ones included, restores what it was visiting, and answers as its specification does |
| FixedSizes.FixedIsSize | crates/uju-protoc/src/ir.rs:374-380 | without recursion a nameable type is decided fixed-size if and only if the layout gives it a fixed size |
| FixedSizes.StructFixedIsSize | crates/uju-protoc/src/ir.rs:401-412 | the same for the fields of a struct or hub kind |
| FixedSizes.FixedExactly | crates/uju-protoc/src/ir.rs:384-416 | on every schema, recursive ones included: a type is decided fixed-size if and only if nothing it keeps in place, through any number of declarations, varies in size or may be absent |
| Builders.Builder.constructor | crates/uju-protoc/src/ir/wire.rs:255-263 | a new builder has nothing laid out and nothing reported |
| Builders.Builder.SizeOfType | crates/uju-protoc/src/ir/wire.rs:656-698 | the size found while laying out on demand is the size of the type with its names replaced |
| Builders.Builder.FindOversized | crates/uju-protoc/src/ir/wire.rs:638-647 | the builder finds exactly the fixed-size part of a type too large for any message |
| Builders.Builder.LayOutField | crates/uju-protoc/src/ir/wire.rs:542-577 | the first pass gives each field its slot, from the bits and slots of the fields before it, and reports exactly those too large |
| Builders.Place | crates/uju-protoc/src/ir/wire.rs:583-596 | the second pass gives each fixed field its offset and adds up the optional and variable parts |
| Builders.Finish | crates/uju-protoc/src/ir/wire.rs:596-635 | the boundary width, head, and size follow from the parts |
| Builders.Builder.LayOut | crates/uju-protoc/src/ir/wire.rs:532-636 | the two passes build the layout that the codec is proved for, and report exactly when a field or the head is too large |
| Builders.Builder.DefUnion | crates/uju-protoc/src/ir/wire.rs:489-528 | a union's size is its tag plus its largest variant, each variant laid out in turn |
| Builders.Builder.DefObject | crates/uju-protoc/src/ir/wire.rs:482-487 | an object's layout is recorded with its size; a hub kind's key is checked too |
| Builders.Builder.Def | crates/uju-protoc/src/ir/wire.rs:443-476 | laying out on demand ends, lays out each declaration once, and never meets one being laid out; what is done or busy stays so |
| Builders.Builder.LayOutAll | crates/uju-protoc/src/ir/wire.rs:264-264 | every declaration is laid out, and errors are empty if and only if none is too large |
| Lowering.CheckFixed | crates/uju-protoc/src/ir/lower.rs:816-829 | the check reports nothing if and only if every array item, set item, and key is decided fixed-size, recursive schemas included |
| Lowering.DeclChecksExactly | crates/uju-protoc/src/ir/lower.rs:744-814 | what must be fixed-size is exactly every array item, set item, and map key of the declaration, however deep, and a hub kind's key |
| Lowering.LowerPhases | crates/uju-protoc/src/ir/lower.rs:62-79 | the phases in order: what is not fixed-size, then recursion, then sizes; a schema passes all three if and only if the codec's theorems apply to each of its declarations, with the sizes found |
| Lowering.NoErrorsExactly | crates/uju-protoc/src/ir/lower.rs:831-860 | once what must be fixed-size is, laying out reports nothing if and only if every declaration is a type the codec is proved for |
| Lowering.DeclGood | crates/uju-protoc/src/ir/wire.rs:443-476 | in a schema nothing is reported about, every declaration is such a type |
| Lowering.TakenFine | crates/uju-protoc/src/ir/wire.rs:443-476 | a declaration the codec is proved for is never reported |
| Traits.Iterate | crates/uju-protoc/src/backend/rust.rs:824-861 | the in-place iteration ends with each declaration deriving a trait if and only if no declaration it reaches denies it: `Eq` by a float, `Hash` by a float, set, or map, `Copy` by text, bytes of no fixed length, or a collection, `Default`, through required fields and array items only, by a union, an entity, a timestamp, or more than 32 items or fixed bytes; it is the greatest solution of the equations |
| Traits.TypeHas | crates/uju-protoc/src/backend/rust.rs:877-922 | a type has a trait if and only if every part the trait asks for has it |
| Traits.DeclHasUnless | crates/uju-protoc/src/backend/rust.rs:828-874 | a declaration has a trait if and only if it does not deny it itself and every declaration it asks has it |
| Traits.DeclMonotone | crates/uju-protoc/src/backend/rust.rs:828-851 | parts that support more never make a declaration support less |
| Traits.SupportedDrops | crates/uju-protoc/src/backend/rust.rs:852-855 | each change takes away a trait, which bounds the iteration |
| Roles.Marker.Mark | crates/uju-protoc/src/backend/rust.rs:708-740 | marking ends on every schema and marks the declaration and, transitively, all it names, for just the directions asked |
| Roles.NamedExactly | crates/uju-protoc/src/backend/rust.rs:708-740 | what marking follows is exactly every name in the declaration, the key of a hub kind included |
| Roles.Marker.MarkFrom | crates/uju-protoc/src/backend/rust.rs:757-769 | marks stay closed under names and reached from what marking started from |
| Roles.RolesOf | crates/uju-protoc/src/backend/rust.rs:696-791 | a role's marks are exactly what is reached, by names, from what it sends or receives, from hub kinds it holds, and from what no message of the role reaches: it encodes just the messages it sends, decodes just those it receives, and does both for hub kinds just when it is a hub or a sim; without a role everything is marked |
| Roles.ReasonsExactly | crates/uju-protoc/src/backend/rust.rs:753-783 | what a role starts from for encoding: hub kinds it holds, messages it sends, and every name in the key of a kind it sends to; for decoding: the kinds, and messages it receives |
| Roles.MarkedIsReached | crates/uju-protoc/src/backend/rust.rs:707-741 | marks closed under names and holding only what is reached are exactly what is reached |
| Roles.MarkKey | crates/uju-protoc/src/backend/rust.rs:771-782 | a sender encodes the key of the kind it sends to, and does not decode it for that |
| Roles.MarkUnreached | crates/uju-protoc/src/backend/rust.rs:784-789 | whatever is marked in neither direction, messages and hub kinds aside, is marked in both, and was reached from nothing sent or received |
| Roles.MarkMessage | crates/uju-protoc/src/backend/rust.rs:762-783 | a message is marked for what the role does with it, and its receivers' keys for encoding |
| SparseArrays.Encode | crates/uju/src/ecs/storage/sparse_array.rs:93-100 | positions below 2^32 - 1, and no others, have a non-zero entry that decodes back |
| SparseArrays.SparseArray.constructor | crates/uju/src/ecs/storage/sparse_array.rs:10-13 | a new array is empty everywhere |
| SparseArrays.SparseArray.Clear | crates/uju/src/ecs/storage/sparse_array.rs:16-18 | clearing empties every index |
| SparseArrays.SparseArray.Get | crates/uju/src/ecs/storage/sparse_array.rs:20-23 | reading gives the entry of the index |
| SparseArrays.SparseArray.Insert | crates/uju/src/ecs/storage/sparse_array.rs:25-39 | inserting changes that index only, with each page's count right and the last page not empty |
| SparseArrays.SparseArray.Remove | crates/uju/src/ecs/storage/sparse_array.rs:41-57 | removing gives what was there and empties that index only; pages emptied are dropped and trailing ones trimmed |
| SparseArrays.Stored | crates/uju/src/ecs/storage/sparse_array.rs:31-38 | an entry written in one page is found at that index and at no other |
| SparseSets.SparseSet.constructor | crates/uju/src/ecs/storage/sparse_set.rs:18-24 | a new set holds nothing |
| SparseSets.SparseSet.Clear | crates/uju/src/ecs/storage/sparse_set.rs:26-30 | clearing leaves nothing held |
| SparseSets.SparseSet.Len | crates/uju/src/ecs/storage/sparse_set.rs:33-35 | the length is the number of entities held |
| SparseSets.SparseSet.Insert | crates/uju/src/ecs/storage/sparse_set.rs:42-55 | inserting puts the entity and component at its index, returning the component it replaces, of whatever generation |
| SparseSets.SparseSet.Remove | crates/uju/src/ecs/storage/sparse_set.rs:57-69 | swap-removal takes out exactly the entity's component, or nothing for a stale handle, and keeps both directions inverse |
| SparseSets.SparseSet.IndexOf | crates/uju/src/ecs/storage/sparse_set.rs:88-91 | a handle is found exactly when its index holds that very generation |
| SparseSets.SparseSet.Contains | crates/uju/src/ecs/storage/sparse_set.rs:72-74 | containment is of the very generation |
| SparseSets.SparseSet.Get | crates/uju/src/ecs/storage/sparse_set.rs:77-79 | reading gives the component of the very generation, never of a stale handle |
| SparseSets.SparseSet.Set | crates/uju/src/ecs/storage/sparse_set.rs:82-86 | writing through the reference changes that entity's component only |
| SparseSets.SwapRemoved | crates/uju/src/ecs/storage/sparse_set.rs:60-66 | moving the last entry into the gap leaves everything held but the removed index |
| SparseBitsets.SparseBitset.constructor | crates/uju/src/ecs/storage/sparse_bitset.rs:13-15 | a new set is empty |
| SparseBitsets.SparseBitset.Clear | crates/uju/src/ecs/storage/sparse_bitset.rs:18-20 | clearing empties the set |
| SparseBitsets.SparseBitset.Contains | crates/uju/src/ecs/storage/sparse_bitset.rs:22-33 | a word mask picks out exactly the index |
| SparseBitsets.SparseBitset.Insert | crates/uju/src/ecs/storage/sparse_bitset.rs:35-52 | inserting adds that index only, counting it once |
| SparseBitsets.SparseBitset.Remove | crates/uju/src/ecs/storage/sparse_bitset.rs:54-82 | removing takes that index only, says whether it was there, drops emptied pages, and trims trailing ones |
| SparseBitsets.OnesOr | crates/uju/src/ecs/storage/sparse_bitset.rs:48-51 | setting a bit of a word adds one to its count exactly when it was clear |
| SparseBitsets.OnesClear | crates/uju/src/ecs/storage/sparse_bitset.rs:71-72 | clearing a bit takes one from the count exactly when it was set |
| Entities.Allocator.constructor | crates/uju/src/ecs/entity.rs:161-167 | a new allocator has issued nothing |
| Entities.Allocator.TryAlloc | crates/uju/src/ecs/entity.rs:181-197 | the handle returned has never been returned before and is the only one that comes alive; the slot freed last is used again before a new one is made, and it fails only with every index used and none free |
| Entities.Allocator.Alloc | crates/uju/src/ecs/entity.rs:177-179 | the same, where it does not panic |
| Entities.Allocator.Dealloc | crates/uju/src/ecs/entity.rs:199-212 | freeing succeeds exactly for a live handle and kills that one only; its slot is free next unless its generations are used up |
| Entities.Allocator.IsAlive | crates/uju/src/ecs/entity.rs:214-218 | a handle is alive when its generation is its slot's and odd |
| Entities.Recycle | crates/uju/src/ecs/entity.rs:183-187 | a freed slot gives a handle never issued, its generation never overflowing |
| Entities.Free | crates/uju/src/ecs/entity.rs:204-210 | a dead slot is free exactly when its next generations fit: one is retired at 2^32 - 2, so the overflow panic cannot fire |
| Registries.UniversalAllocator.constructor | crates/uju/src/ecs/entity.rs:289-295 | minting starts where told |
| Registries.UniversalAllocator.TryAlloc | crates/uju/src/ecs/entity.rs:306-310 | each id minted carries the next serial, which then grows; it fails only at the last serial |
| Registries.Registry.constructor | crates/uju/src/ecs/entity.rs:325-332 | a new registry maps nothing |
| Registries.Registry.Spawn | crates/uju/src/ecs/entity.rs:352-354 | a new entity is the only one that comes alive and has no id |
| Registries.Registry.Despawn | crates/uju/src/ecs/entity.rs:357-371 | freeing forgets the entity's id and no other, so a recycled slot inherits none |
| Registries.Registry.Universal | crates/uju/src/ecs/entity.rs:374-382 | the id given is the one that resolves to the entity, and none is given to a dead or unpromoted one |
| Registries.Registry.Promote | crates/uju/src/ecs/entity.rs:385-404 | a dead entity gets no id and a promoted one keeps its own, without minting; a first promotion mints the next id, and the two directions stay inverse if and only if that id was not about already, as when every id about is behind the next serial |
| Registries.Registry.Resolve | crates/uju/src/ecs/entity.rs:407-409 | an id resolves to an entity exactly when that entity is alive and carries it, and to none when none does |
| Registries.Registry.Adopt | crates/uju/src/ecs/entity.rs:413-427 | an id from elsewhere gets a new entity exactly when it has none here, and no other id leads to that entity; ids stay behind the next serial exactly when this one is not yet to be minted here |
| Worlds.World.constructor | crates/uju/src/ecs/world.rs:23-37 | a world of empty tables stores nothing |
| Worlds.World.Spawn | crates/uju/src/ecs/world.rs:43-45 | with components only of live entities about, a spawned entity, recycled slot or not, is in no table; it never has an id |
| Worlds.World.Despawn | crates/uju/src/ecs/world.rs:50-59 | despawning removes the entity from every table and from the ids and touches nothing else, leaving no component of a dead entity where there was none |
| Worlds.World.Insert | crates/uju/src/ecs/storage/sparse_set.rs:42-55 | a component goes to its entity and no other; where every component was of a live entity, that stays so if and only if this one's entity is alive |
| Worlds.World.Adopt | crates/uju/src/ecs/world.rs:81-83 | with components only of live entities about, an adopted entity is in no table; it has no id but the adopted one |
| Clusters.StepConsistent | crates/uju/src/ecs/entity.rs:284-295 | every mint, departure, arrival, loss, and restart past the serials minted keeps ids below their minter's next serial and in at most one place |
| Clusters.RestartExactly | crates/uju/src/ecs/entity.rs:286-288 | restarting a shard keeps ids from aliasing if and only if its start exceeds every serial it minted |
| Clusters.MintsAgain | crates/uju/src/ecs/entity.rs:286-288 | from any lower start, a shard comes to mint an id a second time |
| Clusters.PersistedSuffices | crates/uju/src/ecs/entity.rs:297-300 | the persisted next serial, or any later one, is such a start |
| Clusters.Start | crates/uju/src/ecs/entity.rs:289-332 | a new registry over a new minter is a shard just restarted from that serial |
| Clusters.ResolvesOnce | crates/uju/src/ecs/entity.rs:227-229 | at every point of every run an id resolves on at most one shard, and on none while it moves |
| Clusters.NeverMintedAgain | crates/uju/src/ecs/entity.rs:276-288 | no id is minted twice over any run, across shards, moves, and restarts |
| Clusters.ArrivalAdoptable | crates/uju/src/ecs/entity.rs:411-427 | an arriving id never resolves there yet and is behind the next serial, so adopting it succeeds and keeps ids behind |
| Clusters.Promote | crates/uju/src/ecs/entity.rs:385-404 | a registry's promotion is a shard's mint step exactly for a live entity without an id, and no step otherwise |
| Clusters.FreeOrLeave | crates/uju/src/ecs/entity.rs:357-371 | a registry's despawn is a shard's forgetting of that id |
| Clusters.Arrival | crates/uju/src/ecs/entity.rs:413-427 | a registry's adoption is a shard's arrival step, refused without one exactly where the id resolves already |
| Joins.Collect | crates/uju/src/ecs/storage/join.rs:39-61 | iterating yields exactly the entities with every read, written, or required component and none excluded, each once with its own components, and no two items share one; they come in the order of the first of the shortest tables |
| Joins.Join.constructor | crates/uju/src/ecs/storage/join.rs:39-44 | a join walks the first of the shortest tables of its terms, however tuples nest |
| Joins.WalksShortest | crates/uju/src/ecs/storage/join.rs:72-93 | a term is as long as the shortest of its tables, and is walked by the first of those |
| Joins.Join.Next | crates/uju/src/ecs/storage/join.rs:54-61 | each step yields the next walked entity that every term gives an item for |
| Joins.GetCarries | crates/uju/src/ecs/storage/join.rs:95-100 | probing every term succeeds exactly for the entities asked for |
| Joins.WalkCovers | crates/uju/src/ecs/storage/join.rs:82-93 | the term walked lists each entity once and every one asked for |
| Joins.CellsApart | crates/uju/src/ecs/storage/join.rs:23-30 | two entities are never given the same dense cell, so mutable terms do not alias |
| Joins.WrittenOnce | crates/uju/src/ecs/query.rs:307-322 | within one item, a component handed out mutably is handed out by that term only, borrows of a query being exclusive |
| Joins.SetTable | crates/uju/src/ecs/storage/sparse_set.rs:119-138 | a component set's packed entities name each index once, and hold an entity exactly where the set's own lookup finds its component |
| Joins.Probe | crates/uju/src/ecs/storage/sparse_set.rs:135-138 | probing a set finds the position its packed entities have for the entity, and nothing for a stale handle |
| Joins.TuplePanics | crates/uju/src/ecs/storage/join.rs:82-93 | asking a tuple for its entities panics if and only if a term shorter than all before it, the first always included, panics |
| Joins.FlatPanics | crates/uju/src/ecs/query.rs:28-31 | a query without nested tuples panics if and only if its first term is `Without`, even with other terms present |
| Joins.PanicsExactly | crates/uju/src/ecs/storage/join.rs:82-93 | however tuples nest, a join panics if and only if a `Without` is reached through terms each of which is first in its tuple or shorter than all before it |
| Joins.WalkableNeverPanics | crates/uju/src/ecs/query.rs:160-174 | a query whose every tuple begins with a term that can be walked, its others being such or only `Without`s, never panics, whatever the tables hold |
| Joins.NeverPanicsExactly | crates/uju/src/ecs/query.rs:160-174 | of queries naming no component twice, those are the only ones that never panic: any other does over some tables, each empty or of one entity |
| Joins.NestedFilterPanics | crates/uju/src/ecs/query.rs:28-31 | `(A, (Without<B>, With<C>))` panics if and only if fewer entities have `C` than `A` |
| Calendar.CivilOfDays | crates/uju-protoc/src/lexer.rs:315-340 | every real date from 1970 counts to a day that is not negative and is that date again |
| Calendar.DaysOfCivil | crates/uju-protoc/src/lexer.rs:324-340 | every day from 1970-01-01 on is a real date that counts back to it |
| Calendar.NextDayCounts | crates/uju-protoc/src/lexer.rs:304-321 | the count grows by one from each date to the next, across months, leap days, years, centuries, and eras |
| Calendar.EpochIsZero | crates/uju-protoc/src/lexer.rs:313-321 | 1970-01-01 is day 0 |
| Calendar.LeapInEra | crates/uju-protoc/src/lexer.rs:300-302 | a year from March ends with a leap day exactly when the calendar year it ends in is a leap year |
| Calendar.MonthsRepeat | crates/uju-protoc/src/lexer.rs:300-311 | month lengths repeat every 400 years, so a date before 1970 exists when the one 400 years on does |
| Timestamps.LexPrinted | crates/uju-protoc/src/lexer.rs:260-367 | a timestamp up to the largest prints as a literal that lexes back to it (sections 5.6 and 5.7 and Appendix C of RFC 3339) |
| Timestamps.LexWritten | crates/uju-protoc/src/lexer.rs:260-294 | for every literal: one of a date or time that does not exist is invalid, any other of a year before 1970 is before the epoch, and each of the rest names the instant of its date, its time, and the digits of its fraction, padded to six |
| Timestamps.LiteralParts | crates/uju-protoc/src/lexer.rs:262-278 | every literal is the text of such a date, time, and fraction |
| Timestamps.PrintLexed | crates/uju-protoc/src/lexer.rs:347-367 | a literal that lexes prints as the one shortest literal of the same instant, the date and time as they were written |
| Timestamps.LexedSame | crates/uju-protoc/src/lexer.rs:260-294 | two literals of one instant differ at most in the zeros ending the fraction |
| Timestamps.LexedBound | crates/uju-protoc/src/lexer.rs:280-293 | whatever lexes is at most the largest timestamp |
| Timestamps.MaxTimestamp | crates/uju/src/net/wire.rs:32-34 | the largest timestamp is the last microsecond of 9999-12-31 |
| Timestamps.LastDay | crates/uju-protoc/src/lexer.rs:304-321 | the days up to the last one of a timestamp are exactly those of years up to 9999 |
| Framing.Serialize | crates/uju/src/net/transport/tcp/session.rs:165-179 | a header is its length then its id, each high byte first, and reads back from its bytes |
| Framing.SerializeDeserialized | crates/uju/src/net/transport/tcp/session.rs:165-179 | four bytes are the one form of the header they read as |
| Framing.DrainFrames | crates/uju/src/net/transport/tcp/session.rs:112-128 | the loop consumes exactly the whole frames at the start |
| Framing.Receiver.constructor | crates/uju/src/net/transport/tcp/session.rs:134-135 | a session starts with nothing carried over |
| Framing.Receiver.Receive | crates/uju/src/net/transport/tcp/session.rs:150-157 | after each chunk the frames so far are those of the whole stream so far, and what is carried over holds no whole frame |
| Framing.ParseInParts | crates/uju/src/net/transport/tcp/session.rs:150-157 | parsing a stream in two parts, carrying over the rest of the first, is parsing it whole |
| Framing.ReceiveAll | crates/uju/src/net/transport/tcp/session.rs:137-158 | however a stream is chunked, the frames and the final carry are those of the stream parsed at once |
| Framing.RestIncomplete | crates/uju/src/net/transport/tcp/session.rs:118-120 | what is left never holds a whole frame |
| Framing.SentReceived | crates/uju/src/net/transport/tcp/session.rs:112-128 | frames sent in a row, followed by part of another, come out in order, and the part is what is left |
| Framing.NothingLost | crates/uju/src/net/transport/tcp/session.rs:112-128 | the frames and what is left make up the stream, byte for byte |

## Left out

- Parsing, name resolution, and token matching: a schema starts out lowered, and a timestamp as a literal of the right shape.
- The generated Rust as text: what it does is modelled, not its spelling, paths, or item order.
- Diagnostics: that something is reported is modelled, not its wording or place; a report of a recursive type is the declaration's index.
- `uentity` and `uuid` values: the Rust backend rejects them, so they are no scalar of the model, in layouts either.
- Constants, attributes, case conversion, message and hub ids, fingerprints, and dispatch and relay tables.
- Times finer than a microsecond: the owned value is in microseconds, as the runtime truncates it, negative before the epoch.
- Floating-point arithmetic and the parsing of float bounds: a float is its bits and a bound the place of its float in their order, which `Floats` relates to values.
- Variants with inline fields are a variant holding a struct of those fields, whose layout is the same.
- The memo of `is_checked`, which only saves work.
- A fixed-length byte string is an array of bytes in Rust; here its length is checked as a string's is, which a value of that type always passes.
- `usize` and `u64` arithmetic in runtime code is on unbounded integers: the sums are of lengths in memory. Casts to narrower types are written out.
- Pages are values held in a sequence, not boxes of aligned memory; their length is the array's parameter.
- Components of different types are one type parameter, and a component handed out by a join is the table and position it is in.
- `RefCell` borrows, so that a despawn during a view panics, and resources (`uniques`).
- Aliasing of references over time: that one join never hands out a cell twice is all that is kept of it.
- Starting a world again: `World::new` starts serials at 0, with a note to do otherwise. The model's restart is from any serial the contract of `UniversalAllocator::new` allows; `Clusters.MintsAgain` is what a lower one does.
- What moves an entity between shards: no code does, so a move is a despawn on one and an adoption on another.
- Sockets, tasks, send loops, stop tokens, and what is done with a received frame.
- Messages.Encode: which of several failing checks is reported for a value failing its own checks is not stated.
- Validators.Validate: of a rejected message the offset is bounded by its length; which check fails first, and so the error's kind, is not stated.
- Tightness.MaxExactly: of a type holding a part without any value, such as an enum of no values, or an empty collection of unbounded items, the maximum may be larger than every encoding.
