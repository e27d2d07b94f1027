# ncx copy engine, modelled in Dafny

`ncx` is a command-line tool for netCDF files. This project models the part
of it that does real work on the data model: the variable-dropping copier of
`Sources/ncx/file_io.swift`. That copier is `drop`, `copy_file`, `copy_group`
and the two attribute copiers. The project also models the small helpers
around it:

- the kind tag and `units` lookups of the variable listing;
- the column layout of `table_of_content`;
- `interpolate`;
- `chunked(into:)` and the output length of `movingAverage`, from
  `Sources/ncx/extensions.swift`.

The netCDF objects are in-memory datatypes (module `NetCDF`):

- the source file is an immutable tree of groups, dimensions, variables and
  attributes;
- a destination group handle is a value (`OutGroup`) that each step takes and
  returns, as the Swift code threads an `inout Group`;
- each destination group records the order in which its dimensions and
  variables were defined (`trace`).

The library behaviour the copier relies on without defining it is a
`Library` parameter: whether a typed read returns values or nil, UTF-8
decoding, and the tree a container the copier wrote shows when it is opened
again. The library's definition calls are modelled as follows:

- `createDimension` and `createVariable` refuse a name already defined in the
  group.
- `createGroup` refuses a name the group already uses for a child group or a
  variable; otherwise it is refused in a file opened read-only.

Each copy loop is a method proved equal to a specification function: a
left fold over the items that stops at the first failure. Lemmas about
those functions state what a copy produces.

The model follows the code as written, including where it departs from an
idealised copier. Each departure is stated and proved:

- A child group is created with `createGroup` on the **source** group, under
  the name of one of that group's own children. The library refuses that name
  as already in use, whether or not the file is writable. So the first child
  stops the copy, and a successful copy implies that the source had no child
  groups (`Groups.ChildrenCopiedRefused`, `Groups.GroupCopiedNoChildren`).
- The rest of the child pass is modelled as written, given the handle
  (`Groups.ChildFilled`). The handle is not under the destination root, so
  it is kept as a `stray`.
- That pass creates a child's dimensions twice, before the recursive call and
  inside it. So a child with any dimension would fail there too
  (`Groups.ChildFilledFails`).
- That pass copies the parent's attributes again onto the destination. This
  leaves the attributes unchanged and repeats the diagnostics
  (`Attributes.AttributesRecopyIdempotent`, `Groups.ChildFilledGroup`).
- ushort attributes are read as `[UInt8]`. Char variables are created,
  read and written as `Int8`.
- A force-unwrapped nil read is a `Trap`. It stops the copy, and whatever was
  already written stays written.
- `drop` does not delete the temporary file when the copy fails.

## Model

| member | source | states |
|---|---|---|
| NetCDF.CreateDimension | Sources/ncx/file_io.swift:319 | refused (name in use) exactly when the group already has a dimension of that name; otherwise the dimension is appended and recorded |
| NetCDF.CreateVariable | Sources/ncx/file_io.swift:326 | refused exactly when the name is already a variable of the group; otherwise an empty variable with that element type and dimension list is appended |
| NetCDF.CreateGroup | Sources/ncx/file_io.swift:379 | refused as name in use when the group already uses the name; otherwise refused (not permitted) when the file is read-only; otherwise a new empty group of that name |
| NetCDF.ChildNameInUse | Sources/ncx/file_io.swift:378-379 | the name of each child group is among the names its parent group already uses |
| Attributes.AttrReadType | Sources/ncx/file_io.swift:392-431 | the element type each attribute kind is read with; ushort is read as UInt8, as are ubyte and char |
| Attributes.AttributeAction | Sources/ncx/file_io.swift:390-431 | skipped iff the kind is none; traps iff the kind is known, is not char/int32/double, and the read is nil; char becomes one text (decoded bytes, empty bytes on a nil read, placeholder when not UTF-8); other kinds set exactly the values read, with int32/double falling back to none |
| Attributes.CopyAttributes | Sources/ncx/file_io.swift:389-432 | the loop over a holder's attributes equals the specification fold `AttributesCopied`, stopping at the first trap |
| Attributes.CopyAttributesForVariable | Sources/ncx/file_io.swift:388-433 | only the created variable's attributes change, as the fold over the source variable's attributes says |
| Attributes.CopyAttributesForGroup | Sources/ncx/file_io.swift:435-478 | only the destination group's attributes change, as the fold over the source group's attributes says |
| Attributes.AttributesCopiedStops | Sources/ncx/file_io.swift:389-393 | once an attribute traps, later attributes change nothing |
| Attributes.AttributesCopiedMeaning | Sources/ncx/file_io.swift:389-432 | the walk succeeds iff no attribute traps; then the attributes are the holder's overlaid with every set attribute, and there is one diagnostic per attribute of no kind, and nothing else |
| Attributes.AttributesCopiedFailure | Sources/ncx/file_io.swift:389-432 | the walk fails exactly when some attribute's read traps |
| Attributes.AttributesCopiedResult | Sources/ncx/file_io.swift:389-432 | a walk that does not fail leaves the overlay of the set attributes and one diagnostic per attribute of no kind |
| Attributes.OverlayAbsorbs | Sources/ncx/file_io.swift:394 | setting a key before or after a walk gives the same map once that key is set again |
| Attributes.OverlayIdempotent | Sources/ncx/file_io.swift:384 | overlaying the same attributes twice equals overlaying them once |
| Attributes.AttributesRecopyIdempotent | Sources/ncx/file_io.swift:384 | copying a group's attributes a second time succeeds, leaves the attributes as they were and repeats the diagnostics |
| Attributes.OverlayByName | Sources/ncx/file_io.swift:393-394 | with distinct names, a set attribute ends under its own name with its value; a skipped or trapping one adds no key |
| Attributes.OverlayOmits | Sources/ncx/file_io.swift:389-431 | a name no source attribute has is present after the walk iff it was present before, and keeps its value |
| Variables.VariableElem | Sources/ncx/file_io.swift:325-372 | the element type per kind: Int8 exactly for byte and char, String exactly for string, Float for float, Float64 for double |
| Variables.VariableElemSeparatesKinds | Sources/ncx/file_io.swift:329-336 | two different kinds share an element type only when they are byte and char |
| Variables.VariableCopied | Sources/ncx/file_io.swift:323-372 | one variable step changes nothing but the diagnostics, or appends exactly one variable of that name with one creation record |
| Variables.VariableCopiedMeaning | Sources/ncx/file_io.swift:323-372 | kind none only adds a diagnostic; otherwise success iff the name is new, the data reads with the kind's element type and no attribute traps; then the group gains the variable with the same name and dimensions, the data as read and the attributes copied |
| Variables.VariableCopiedGroup | Sources/ncx/file_io.swift:325-372 | a successful step of known kind appends exactly that variable and its creation record |
| Variables.CopyVariable | Sources/ncx/file_io.swift:323-372 | the per-kind branch (attributes first for float, double and string, data first for the others) equals `VariableCopied` |
| Variables.VariablesCopiedStops | Sources/ncx/file_io.swift:322-374 | once a variable step fails, later variables change nothing |
| Variables.CopyVariables | Sources/ncx/file_io.swift:322-374 | the loop over the variables not in the exclude list equals the fold `VariablesCopied` |
| Variables.VariablesCopiedFrame | Sources/ncx/file_io.swift:322-374 | the variable loop changes neither the group's dimensions nor its attributes, and adds no excluded name |
| Variables.VariablesCopiedMeaning | Sources/ncx/file_io.swift:322-374 | on success the group gains exactly the non-excluded variables of known kind, in source order, each recorded as created in that order |
| Groups.CreateDimensions | Sources/ncx/file_io.swift:318-320 | the dimension loop equals the fold `DimensionsCreated` |
| Groups.DimensionsCreatedFrame | Sources/ncx/file_io.swift:318-320 | the dimension loop changes neither the variables nor the attributes |
| Groups.DimensionsCreatedMeaning | Sources/ncx/file_io.swift:318-320 | success iff no name is already defined or repeated; then the group gains every dimension (name, length, unlimited flag) in order, each recorded as created |
| Groups.DimensionsCreatedRefusesReuse | Sources/ncx/file_io.swift:319 | a dimension loop that meets a name the group already defines fails |
| Groups.DimensionsCreatedStops | Sources/ncx/file_io.swift:318-320 | once a dimension is refused, later dimensions change nothing |
| Groups.CopyGroup | Sources/ncx/file_io.swift:316-386 | the recursive copy equals the specification `GroupCopied`: dimensions, variables, group attributes, then each child (created on the source, then the rest of the pass) |
| Groups.FillChild | Sources/ncx/file_io.swift:380-384 | given the child handle, the rest of the pass (dimensions created on it, recursion, parent attributes re-copied) equals `ChildFilled` |
| Groups.ChildrenCopiedStops | Sources/ncx/file_io.swift:378-385 | once a child fails, later children change nothing |
| Groups.ChildCopiedRefused | Sources/ncx/file_io.swift:378-379 | every child pass fails with the child's name in use, whether or not the source is writable, and changes nothing else |
| Groups.ChildrenCopiedRefused | Sources/ncx/file_io.swift:378-385 | a child loop over at least one child fails at the first child, with the destination and diagnostics as it found them |
| Groups.GroupCopiedNoChildren | Sources/ncx/file_io.swift:316-386 | a successful copy implies that the source group has no child groups |
| Groups.ChildFilledGroup | Sources/ncx/file_io.swift:380-384 | given a handle, a pass that gets through changes the destination group only by overlaying the parent's attributes again |
| Groups.ChildFilledFails | Sources/ncx/file_io.swift:380-383 | given the fresh handle, a child with a dimension fails, at the latest when the recursive call creates that dimension again |
| Groups.GroupCopiedShape | Sources/ncx/file_io.swift:316-386 | on success the destination gains all source dimensions, then the kept variables, and the source group's attributes, and every dimension is created before any variable |
| Groups.GroupCopiedNeedsDimensions | Sources/ncx/file_io.swift:318-322 | when a dimension cannot be created, the copy fails before any variable is created |
| Groups.GroupCopiedClean | Sources/ncx/file_io.swift:322-383 | whatever the outcome, no variable with an excluded name reaches the destination group, and no handle is collected on the way |
| Driver.CopyFile | Sources/ncx/file_io.swift:311-314 | the temporary path holds a new container carrying whatever the copy wrote; the diagnostics and failure are those of the copy |
| Driver.CopiedMeaning | Sources/ncx/file_io.swift:311-314 | a successful copy holds exactly the root's dimensions, the kept variables (no excluded name), the root's attributes, dimensions before variables, and the source root had no child groups |
| Driver.Drop | Sources/ncx/file_io.swift:300-308 | exits on a wrong URL count or on input == output without force, touching nothing; otherwise a missing or non-netCDF source fails, touching nothing and printing nothing; any netCDF container, including one written by an earlier run, is opened and the copy goes to the temporary path; the destination is replaced only after a successful copy of a clean, childless root, and only if it existed |
| Driver.CopiedClean | Sources/ncx/file_io.swift:300-308 | what a successful copy commits has no excluded variable and comes from a root without child groups |
| Driver.Replace | Sources/ncx/file_io.swift:306-307 | removing a missing destination fails and changes nothing; otherwise the destination holds what the temporary path held, and the temporary path is gone |
| Inspect.TypeTag | Sources/ncx/file_io.swift:138-154 | a parenthesised tag for each of none and the twelve kinds |
| Inspect.TypeTagInjective | Sources/ncx/file_io.swift:138-154 | different kinds get different tags |
| Inspect.JoinSnoc | Sources/ncx/file_io.swift:175 | joining one more string appends the separator and that string |
| Inspect.JoinLength | Sources/ncx/file_io.swift:175 | a join is as long as its strings together plus one separator between each two |
| Inspect.VariableUnit | Sources/ncx/file_io.swift:156-179 | "-" when no `units` attribute is char or string; otherwise the text of the first such attribute; `units` attributes of other kinds are passed over |
| Table.ColumnWidthIsMax | Sources/ncx/file_io.swift:183-193 | the width of a column is at least its header and every cell in it, and equals one of them |
| Table.ColumnWidths | Sources/ncx/file_io.swift:183-193 | traps iff some row has more cells than there are headers; otherwise one width per header, the column maximum |
| Table.Spacing | Sources/ncx/file_io.swift:221-226 | the spacer repeated `counts[index] - value.count` times when positive, and nothing otherwise |
| Table.PadAligns | Sources/ncx/file_io.swift:221-226 | with a one-character spacer, a value plus its padding is as wide as the wider of the value and the column |
| Table.CellsAligned | Sources/ncx/file_io.swift:195-219 | every header and cell of a fitting row, padded with spaces, is exactly as wide as its column |
| Plot.TruncDiv | Sources/ncx/file_io.swift:292 | integer division truncating toward zero: the remainder is smaller than the divisor and has the sign of the dividend |
| Plot.Interpolate | Sources/ncx/file_io.swift:291-298 | traps iff the series is empty or the repetition count is negative; otherwise the result has count × repetition elements, and position k holds point k / repetition |
| Plot.StretchedFitsWidth | Sources/ncx/file_io.swift:292-296 | for a non-negative width the result is at most the width long, and short of it by less than the series length |
| Chunks.Chunked | Sources/ncx/extensions.swift:35-39 | traps iff the size is zero; a negative size yields no chunk |
| Chunks.StridedFromFlatten | Sources/ncx/extensions.swift:35-39 | the chunks concatenate back to the array in order |
| Chunks.StridedFromSizes | Sources/ncx/extensions.swift:36-37 | every chunk but the last has exactly `size` elements; the last is non-empty and at most `size` long |
| Chunks.StridedFromCount | Sources/ncx/extensions.swift:36 | there are ceil(count / size) chunks |
| Chunks.ChunkedMeaning | Sources/ncx/extensions.swift:35-39 | for a positive size: round trip, chunk sizes, ceil count, and an empty array gives no chunk |
| Chunks.MovingAverage | Sources/ncx/extensions.swift:26-33 | traps iff the section size is zero; otherwise exactly one value per chunk, the chunk's mean |

## Left out

- `dump` (`file_io.swift:25-136`) is not part of this model. It computes floating-point statistics and writes them to the console.
- `gplot`/`plot` is not part of this model: float normalisation and terminal rendering. Only the `interpolate` it uses is modelled.
- The date helpers are not part of this model. They depend on `DateFormatter` and the system clock.
- Chunks.MovingAverage: the average itself is float division, so it is a parameter `mean`; only the output length and the pairing with chunks are stated.
- The SwiftNetCDF library is not part of this model. Whether a typed read succeeds, how bytes decode as UTF-8, and the tree a written container shows when opened again are parameters.
- NetCDF.Read: a typed read that succeeds is assumed to return the stored values unconverted, even when the element type does not match the kind (ushort attributes read as `[UInt8]`, char variables read as `Int8`). Whether the library refuses or converts such a read is not part of this model; refusing is covered by `readable`, converting is not.
- Library errors other than a name already in use and a definition in a read-only file are not modelled. Examples are a `createVariable` over an undefined dimension, a failing `write` or `setAttribute`, or `getAttributes` throwing.
- The model assumes `NetCDF.open` yields nil for a missing file, which the force-unwrap in `drop` turns into a trap. It also assumes `open` throws for a file that is not a netCDF container.
- The temporary path is a parameter. The model assumes it is neither of the two URLs, which a fresh UUID ensures.
- Creating the temporary container is assumed to succeed.
- Console output is modelled as a list of diagnostics; its exact text is not. The table's header, separator and row printing is represented only by its widths and padding.
- Driver.Drop: does not model that `drop` is unreachable from the command-line dispatch in `ncx.swift`. The command-line parsing there is not part of this model.
- Strings are sequences of characters. Swift counts grapheme clusters, and normalisation and encoding are not modelled.
- Inspect.VariableUnit: a stored element of a string attribute that is not text contributes an empty string. The library would not return such an element.
- Integers are unbounded; `Int` overflow in widths and lengths is not modelled.
