/**
 * An in-memory model of the part of the netCDF data model that the ncx
 * copier touches, as the SwiftNetCDF library exposes it: groups holding
 * dimensions, variables, attributes and child groups.
 *
 * The source container is an immutable tree (`Group`); a destination group
 * handle is a value (`OutGroup`) that the copier threads through its steps,
 * as the Swift code threads an `inout Group`.  The library behaviour the
 * copier depends on but does not define (whether a typed read returns
 * values, UTF-8 decoding) is a parameter of type `Library`.
 */
module NetCDF {

  datatype Option<+T> = None | Some(value: T)

  /** The twelve external scalar encodings an item can have. */
  datatype Kind =
    | Float | Byte | Char | Short | Int32 | Double
    | UByte | UShort | UInt32 | Int64 | UInt64 | String

  /** The Swift element types the copier reads and writes with. */
  datatype ElemType = F32 | I8 | U8 | I16 | I32 | F64 | U16 | U32 | I64 | U64 | Str

  /** One stored element: a number as its bit pattern, or a string. */
  datatype Value = Bits(bits: int) | Text(text: string)

  datatype Dimension = Dimension(name: string, length: nat, isUnlimited: bool)

  /** `kind` is None when the library reports no external type for the item. */
  datatype Attribute = Attribute(name: string, kind: Option<Kind>, content: seq<Value>)

  /** `data` is the flat, row-major content; `dimensions` names the shape. */
  datatype Variable = Variable(
    name: string,
    kind: Option<Kind>,
    dimensions: seq<string>,
    data: seq<Value>,
    attributes: seq<Attribute>)

  /** A group of the source container, read only. */
  datatype Group = Group(
    name: string,
    dimensions: seq<Dimension>,
    variables: seq<Variable>,
    attributes: seq<Attribute>,
    groups: seq<Group>)

  /**
   * What the copier relies on from the library without seeing it:
   * `readable(k, t)` says whether a typed read (`read()` or `asType(T)?.read()`)
   * of an item of kind `k` with element type `t` returns values rather than nil;
   * `decodeUtf8` is the partial UTF-8 decoding of bytes read as `[UInt8]`;
   * `reopen` is the tree a container written through the library shows
   * when it is opened again.
   */
  datatype Library = Library(
    readable: (Kind, ElemType) -> bool,
    decodeUtf8: seq<Value> -> Option<string>,
    reopen: OutGroup -> Group)

  /**
   * A typed read: the stored content, or nil when the element type does not
   * fit.  A read that succeeds returns the stored values as they are, even
   * when the element type is not the one that matches the kind.
   */
  function Read(lib: Library, kind: Kind, content: seq<Value>, t: ElemType): (r: Option<seq<Value>>)
    ensures r.Some? <==> lib.readable(kind, t)
    ensures r.Some? ==> r.value == content
  {
    if lib.readable(kind, t) then Some(content) else None
  }

  /** A written attribute: an array of one element type, or one text string. */
  datatype AttrValue = Values(elem: ElemType, values: seq<Value>) | TextValue(text: string)

  /** A variable created in a destination group; `data` is None until written. */
  datatype OutVariable = OutVariable(
    name: string,
    elem: ElemType,
    dimensions: seq<string>,
    data: Option<seq<Value>>,
    attributes: map<string, AttrValue>)

  /** The definitions made in a destination group, in the order they were made. */
  datatype Event = DimensionCreated(name: string) | VariableCreated(name: string)

  /** A destination group handle and what has been written through it. */
  datatype OutGroup = OutGroup(
    name: string,
    dimensions: seq<Dimension>,
    variables: seq<OutVariable>,
    attributes: map<string, AttrValue>,
    trace: seq<Event>)

  function EmptyGroup(name: string): OutGroup
  {
    OutGroup(name, [], [], map[], [])
  }

  /** Why an operation stopped: a runtime trap or an error thrown by the library or the file system. */
  datatype Failure =
    | Trap(reason: string)       // force-unwrap of nil: the process stops
    | NameInUse(name: string)    // a definition of that name is already in the group
    | NotPermitted               // a definition in a file opened read-only
    | NoSuchFile(path: string)   // the file system has nothing at that path
    | NotNetCDF(path: string)    // the file at that path is not a netCDF container

  datatype Outcome<+T> = Ok(value: T) | Err(failure: Failure)

  predicate HasDimension(g: OutGroup, name: string)
  {
    exists i :: 0 <= i < |g.dimensions| && g.dimensions[i].name == name
  }

  predicate HasVariable(g: OutGroup, name: string)
  {
    exists i :: 0 <= i < |g.variables| && g.variables[i].name == name
  }

  /** `createDimension`: refused when the group already defines that name. */
  function CreateDimension(g: OutGroup, d: Dimension): (r: Outcome<OutGroup>)
    ensures r.Err? <==> HasDimension(g, d.name)
    ensures r.Err? ==> r.failure == NameInUse(d.name)
    ensures r.Ok? ==> r.value == g.(dimensions := g.dimensions + [d],
                                    trace := g.trace + [DimensionCreated(d.name)])
  {
    if HasDimension(g, d.name) then Err(NameInUse(d.name))
    else Ok(g.(dimensions := g.dimensions + [d], trace := g.trace + [DimensionCreated(d.name)]))
  }

  /** `createVariable`: refused when the group already defines that name; the new variable has no data and no attributes. */
  function CreateVariable(g: OutGroup, name: string, t: ElemType, dims: seq<string>): (r: Outcome<OutGroup>)
    ensures r.Err? <==> HasVariable(g, name)
    ensures r.Err? ==> r.failure == NameInUse(name)
    ensures r.Ok? ==> r.value == g.(variables := g.variables + [OutVariable(name, t, dims, None, map[])],
                                    trace := g.trace + [VariableCreated(name)])
  {
    if HasVariable(g, name) then Err(NameInUse(name))
    else Ok(g.(variables := g.variables + [OutVariable(name, t, dims, None, map[])],
               trace := g.trace + [VariableCreated(name)]))
  }

  /** The names of the items `xs`, in order, as `name` gives them. */
  function Names<T>(xs: seq<T>, name: T -> string): (r: seq<string>)
    ensures |r| == |xs|
    decreases |xs|
  {
    if xs == [] then [] else [name(xs[0])] + Names(xs[1..], name)
  }

  /** The names a new definition in the group `g` of a source file may not take: its child groups' and its variables'. */
  function UsedNames(g: Group): seq<string>
  {
    Names(g.groups, (c: Group) => c.name) + Names(g.variables, (v: Variable) => v.name)
  }

  /** Every item's name is among the names of the items. */
  lemma {:induction false} NameListed<T>(xs: seq<T>, name: T -> string, i: nat)
    requires i < |xs|
    ensures name(xs[i]) in Names(xs, name)
    decreases i
  {
    assert Names(xs, name) == [name(xs[0])] + Names(xs[1..], name);
    if i > 0 {
      NameListed(xs[1..], name, i - 1);
      assert xs[1..][i - 1] == xs[i];
    }
  }

  /** Every child group's name is among the names its parent already uses. */
  lemma ChildNameInUse(g: Group, i: nat)
    requires i < |g.groups|
    ensures g.groups[i].name in UsedNames(g)
  {
    NameListed(g.groups, (c: Group) => c.name, i);
  }

  /**
   * `createGroup` on a group of a file: a new, empty child group.  A name
   * already used in that group is refused first; otherwise the definition
   * is refused when the file was opened read-only.
   */
  function CreateGroup(writable: bool, used: seq<string>, name: string): (r: Outcome<OutGroup>)
    ensures r.Err? <==> name in used || !writable
    ensures name in used ==> r == Err(NameInUse(name))
    ensures name !in used && !writable ==> r == Err(NotPermitted)
    ensures r.Ok? ==> r.value == EmptyGroup(name)
  {
    if name in used then Err(NameInUse(name))
    else if writable then Ok(EmptyGroup(name))
    else Err(NotPermitted)
  }
}
