/**
 * `copy_group`: copy a group's dimensions, then its variables that are not
 * excluded, then its attributes, then each child group.
 *
 * The child step is modelled as written: the child handle is requested
 * with `createGroup` on the SOURCE group, under a name that group already
 * uses, which the library refuses.  The rest of the pass is modelled as
 * written too, given a handle: the child's dimensions are created on it
 * once by the caller and again by the recursive call, and afterwards the
 * parent's attributes are copied onto the destination once more.  Such a
 * handle would not hang under the destination group: the model collects
 * it as a `stray`.
 */
module Groups {
  import opened NetCDF
  import opened Attributes
  import opened Variables

  // ---------------------------------------------------------------------
  // Dimensions

  /** The state of the dimension loop: the group handle, and why the loop stopped, if it did. */
  datatype DimRun = DimRun(group: OutGroup, failure: Option<Failure>)

  /** The dimension loop: create each dimension of `ds` in turn, stopping at the first refusal. */
  function DimensionsCreated(g: OutGroup, ds: seq<Dimension>): DimRun
    decreases |ds|
  {
    if ds == [] then DimRun(g, None)
    else
      var prev := DimensionsCreated(g, ds[..|ds| - 1]);
      if prev.failure.Some? then prev
      else match CreateDimension(prev.group, ds[|ds| - 1])
        case Ok(h) => DimRun(h, None)
        case Err(f) => DimRun(prev.group, Some(f))
  }

  /** The creation events of the dimensions `ds`, in order. */
  function DimensionEvents(ds: seq<Dimension>): seq<Event>
    decreases |ds|
  {
    if ds == [] then [] else DimensionEvents(ds[..|ds| - 1]) + [DimensionCreated(ds[|ds| - 1].name)]
  }

  /** No dimension of `ds` is already in `g`, and no two share a name. */
  predicate FreshNames(g: OutGroup, ds: seq<Dimension>)
  {
    && (forall i :: 0 <= i < |ds| ==> !HasDimension(g, ds[i].name))
    && (forall i, j :: 0 <= i < j < |ds| ==> ds[i].name != ds[j].name)
  }

  /** A group with dimensions `p` appended has a name exactly when the group or `p` has it. */
  lemma HasDimensionExtended(g: OutGroup, h: OutGroup, p: seq<Dimension>, x: string)
    requires h.dimensions == g.dimensions + p
    ensures HasDimension(h, x) <==> HasDimension(g, x) || exists i :: 0 <= i < |p| && p[i].name == x
  {
    if HasDimension(h, x) {
      var k :| 0 <= k < |h.dimensions| && h.dimensions[k].name == x;
      if k >= |g.dimensions| {
        assert p[k - |g.dimensions|].name == x;
      }
    }
    if exists i :: 0 <= i < |p| && p[i].name == x {
      var i :| 0 <= i < |p| && p[i].name == x;
      assert h.dimensions[|g.dimensions| + i] == p[i];
    }
    if HasDimension(g, x) {
      var k :| 0 <= k < |g.dimensions| && g.dimensions[k].name == x;
      assert h.dimensions[k] == g.dimensions[k];
    }
  }

  lemma FreshNamesSnoc(g: OutGroup, ds: seq<Dimension>)
    requires ds != []
    ensures var p, d := ds[..|ds| - 1], ds[|ds| - 1];
      FreshNames(g, ds) <==>
        FreshNames(g, p) && !HasDimension(g, d.name) && forall i :: 0 <= i < |p| ==> p[i].name != d.name
  {
    var p := ds[..|ds| - 1];
    assert forall i :: 0 <= i < |p| ==> p[i] == ds[i];
  }

  /** The dimension loop leaves the group's name, variables and attributes alone. */
  lemma {:induction false} DimensionsCreatedFrame(g: OutGroup, ds: seq<Dimension>)
    ensures var r := DimensionsCreated(g, ds);
      r.group.name == g.name && r.group.variables == g.variables && r.group.attributes == g.attributes
    decreases |ds|
  {
    if ds != [] {
      DimensionsCreatedFrame(g, ds[..|ds| - 1]);
    }
  }

  /**
   * The dimension loop succeeds exactly when every name is fresh; then every
   * dimension of `ds` is in the group, with the same name, length and
   * unlimited flag, in order, and so are their creation events.
   */
  lemma {:induction false} DimensionsCreatedMeaning(g: OutGroup, ds: seq<Dimension>)
    ensures var r := DimensionsCreated(g, ds);
      && (r.failure.None? <==> FreshNames(g, ds))
      && (r.failure.None? ==> r.group == g.(dimensions := g.dimensions + ds, trace := g.trace + DimensionEvents(ds)))
    decreases |ds|
  {
    if ds != [] {
      var p := ds[..|ds| - 1];
      var d := ds[|ds| - 1];
      DimensionsCreatedMeaning(g, p);
      FreshNamesSnoc(g, ds);
      var prev := DimensionsCreated(g, p);
      if prev.failure.None? {
        HasDimensionExtended(g, prev.group, p, d.name);
        assert g.dimensions + p + [d] == g.dimensions + ds;
        assert g.trace + DimensionEvents(p) + [DimensionCreated(d.name)] == g.trace + DimensionEvents(ds);
      }
    }
  }

  /** A dimension loop that meets a name the group already has is refused. */
  lemma DimensionsCreatedRefusesReuse(g: OutGroup, ds: seq<Dimension>, i: nat)
    requires i < |ds| && HasDimension(g, ds[i].name)
    ensures DimensionsCreated(g, ds).failure.Some?
  {
    DimensionsCreatedMeaning(g, ds);
    assert !FreshNames(g, ds);
  }

  /** The dimension loop of `copy_group`, and the one it runs on each child handle. */
  method CreateDimensions(g: OutGroup, ds: seq<Dimension>) returns (g': OutGroup, failure: Option<Failure>)
    ensures DimRun(g', failure) == DimensionsCreated(g, ds)
  {
    g', failure := g, None;
    var i := 0;
    while i < |ds|
      invariant 0 <= i <= |ds|
      invariant DimRun(g', None) == DimensionsCreated(g, ds[..i])
    {
      assert ds[..i + 1][..i] == ds[..i];
      var created := CreateDimension(g', ds[i]);
      if created.Err? {
        failure := Some(created.failure);
        DimensionsCreatedStops(g, ds, i + 1, |ds|);
        assert ds[..|ds|] == ds;
        return;
      }
      g' := created.value;
      i := i + 1;
    }
    assert ds[..i] == ds;
  }

  /** Once the dimension loop has stopped, later dimensions change nothing. */
  lemma {:induction false} DimensionsCreatedStops(g: OutGroup, ds: seq<Dimension>, i: nat, j: nat)
    requires i <= j <= |ds|
    requires DimensionsCreated(g, ds[..i]).failure.Some?
    ensures DimensionsCreated(g, ds[..j]) == DimensionsCreated(g, ds[..i])
    decreases j
  {
    if j > i {
      DimensionsCreatedStops(g, ds, i, j - 1);
      assert ds[..j][..j - 1] == ds[..j - 1];
    } else {
      assert ds[..j] == ds[..i];
    }
  }

  // ---------------------------------------------------------------------
  // The group step and its children

  /** `copy_group` on `src` into the group of `start`; `srcWritable` says whether the source file accepts definitions. */
  function GroupCopied(lib: Library, srcWritable: bool, src: Group, start: Run, exclude: seq<string>): Run
    requires start.failure.None?
    decreases src, 2, 0
  {
    var dims := DimensionsCreated(start.group, src.dimensions);
    if dims.failure.Some? then start.(group := dims.group, failure := dims.failure)
    else
      var vr := VariablesCopied(lib, src.variables, exclude, start.(group := dims.group));
      if vr.failure.Some? then vr
      else
        var ar := AttributesCopied(lib, vr.group.name, src.attributes, AttrRun(vr.group.attributes, vr.diags, None));
        var withAttrs := Run(vr.group.(attributes := ar.attrs), vr.strays, ar.diags, ar.failure);
        if withAttrs.failure.Some? then withAttrs
        else ChildrenCopied(lib, srcWritable, src, withAttrs, |src.groups|, exclude)
  }

  /** The child loop of `copy_group` over the first `k` children of `parent`. */
  function ChildrenCopied(lib: Library, srcWritable: bool, parent: Group, start: Run, k: nat, exclude: seq<string>): Run
    requires start.failure.None?
    requires k <= |parent.groups|
    decreases parent, 1, k
  {
    if k == 0 then start
    else
      var prev := ChildrenCopied(lib, srcWritable, parent, start, k - 1, exclude);
      if prev.failure.Some? then prev else ChildCopied(lib, srcWritable, parent, prev, k - 1, exclude)
  }

  /** One pass of the child loop: create the child handle with `createGroup` on the source group `parent`, then go on with it. */
  function ChildCopied(lib: Library, srcWritable: bool, parent: Group, run: Run, i: nat, exclude: seq<string>): Run
    requires run.failure.None?
    requires i < |parent.groups|
    decreases parent, 0, 1
  {
    match CreateGroup(srcWritable, UsedNames(parent), parent.groups[i].name)
    case Err(f) => run.(failure := Some(f))
    case Ok(h0) => ChildFilled(lib, srcWritable, parent, run, i, h0, exclude)
  }

  /**
   * The rest of a pass, given the child handle `h0`: create the child's
   * dimensions on it, recurse, then copy the parent's attributes onto the
   * destination again.
   */
  function ChildFilled(lib: Library, srcWritable: bool, parent: Group, run: Run, i: nat, h0: OutGroup, exclude: seq<string>): Run
    requires run.failure.None?
    requires i < |parent.groups|
    decreases parent, 0, 0
  {
    var c := parent.groups[i];
    var dims := DimensionsCreated(h0, c.dimensions);
    if dims.failure.Some? then run.(strays := run.strays + [dims.group], failure := dims.failure)
    else
      var cr := GroupCopied(lib, srcWritable, c, Run(dims.group, [], run.diags, None), exclude);
      var strays := run.strays + [cr.group] + cr.strays;
      if cr.failure.Some? then Run(run.group, strays, cr.diags, cr.failure)
      else
        var ar := AttributesCopied(lib, run.group.name, parent.attributes, AttrRun(run.group.attributes, cr.diags, None));
        Run(run.group.(attributes := ar.attrs), strays, ar.diags, ar.failure)
  }

  /** Once the child loop has stopped, later children change nothing. */
  lemma {:induction false} ChildrenCopiedStops(lib: Library, srcWritable: bool, parent: Group, start: Run, exclude: seq<string>, i: nat, j: nat)
    requires start.failure.None?
    requires i <= j <= |parent.groups|
    requires ChildrenCopied(lib, srcWritable, parent, start, i, exclude).failure.Some?
    ensures ChildrenCopied(lib, srcWritable, parent, start, j, exclude) == ChildrenCopied(lib, srcWritable, parent, start, i, exclude)
    decreases j
  {
    if j > i {
      ChildrenCopiedStops(lib, srcWritable, parent, start, exclude, i, j - 1);
    }
  }

  /** `copy_group`, recursive over the source tree. */
  method CopyGroup(lib: Library, srcWritable: bool, src: Group, run: Run, exclude: seq<string>) returns (r: Run)
    requires run.failure.None?
    ensures r == GroupCopied(lib, srcWritable, src, run, exclude)
    decreases src, 1
  {
    // dimensions first
    var g, failure := CreateDimensions(run.group, src.dimensions);
    if failure.Some? {
      return run.(group := g, failure := failure);
    }
    // then the variables whose names are not excluded
    r := CopyVariables(lib, src.variables, exclude, run.(group := g));
    if r.failure.Some? {
      return;
    }
    // then the group's own attributes
    var diags;
    g, diags, failure := CopyAttributesForGroup(lib, src, r.group, r.diags);
    r := Run(g, r.strays, diags, failure);
    if failure.Some? {
      return;
    }
    // then each child group
    ghost var before := r;
    var i := 0;
    while i < |src.groups|
      invariant 0 <= i <= |src.groups|
      invariant r.failure.None?
      invariant r == ChildrenCopied(lib, srcWritable, src, before, i, exclude)
    {
      var c := src.groups[i];
      var created := CreateGroup(srcWritable, UsedNames(src), c.name);   // on the source group, as written
      if created.Err? {
        r := r.(failure := Some(created.failure));
        ChildrenCopiedStops(lib, srcWritable, src, before, exclude, i + 1, |src.groups|);
        return;
      }
      r := FillChild(lib, srcWritable, src, r, i, created.value, exclude);
      if r.failure.Some? {
        ChildrenCopiedStops(lib, srcWritable, src, before, exclude, i + 1, |src.groups|);
        return;
      }
      i := i + 1;
    }
  }

  /** The rest of one pass of the child loop, given the child handle `h0`. */
  method FillChild(lib: Library, srcWritable: bool, parent: Group, run: Run, i: nat, h0: OutGroup, exclude: seq<string>)
    returns (r: Run)
    requires run.failure.None?
    requires i < |parent.groups|
    ensures r == ChildFilled(lib, srcWritable, parent, run, i, h0, exclude)
    decreases parent, 0
  {
    var c := parent.groups[i];
    var child, childFailure := CreateDimensions(h0, c.dimensions);
    if childFailure.Some? {
      return run.(strays := run.strays + [child], failure := childFailure);
    }
    var cr := CopyGroup(lib, srcWritable, c, Run(child, [], run.diags, None), exclude);
    var strays := run.strays + [cr.group] + cr.strays;
    if cr.failure.Some? {
      return Run(run.group, strays, cr.diags, cr.failure);
    }
    // the parent's attributes, once more
    var g, diags, failure := CopyAttributesForGroup(lib, parent, run.group, cr.diags);
    r := Run(g, strays, diags, failure);
  }

  // ---------------------------------------------------------------------
  // What copy_group computes

  /**
   * As written, the child handle is requested from the source group under
   * the name of one of that group's own children, a name the library
   * refuses as already in use: every pass of the child loop fails there,
   * whether or not the source file is writable, and changes nothing else.
   */
  lemma ChildCopiedRefused(lib: Library, srcWritable: bool, parent: Group, run: Run, i: nat, exclude: seq<string>)
    requires run.failure.None?
    requires i < |parent.groups|
    ensures ChildCopied(lib, srcWritable, parent, run, i, exclude) == run.(failure := Some(NameInUse(parent.groups[i].name)))
  {
    ChildNameInUse(parent, i);
  }

  /** A child loop over at least one child stops at the first child, refused, with the destination as it found it. */
  lemma {:induction false} ChildrenCopiedRefused(lib: Library, srcWritable: bool, parent: Group, start: Run, k: nat, exclude: seq<string>)
    requires start.failure.None?
    requires 0 < k <= |parent.groups|
    ensures ChildrenCopied(lib, srcWritable, parent, start, k, exclude) == start.(failure := Some(NameInUse(parent.groups[0].name)))
    decreases k
  {
    if k == 1 {
      ChildCopiedRefused(lib, srcWritable, parent, start, 0, exclude);
    } else {
      ChildrenCopiedRefused(lib, srcWritable, parent, start, k - 1, exclude);
    }
  }

  /** `copy_group` can only succeed on a source group that has no child groups at all. */
  lemma GroupCopiedNoChildren(lib: Library, srcWritable: bool, src: Group, start: Run, exclude: seq<string>)
    requires start.failure.None?
    requires GroupCopied(lib, srcWritable, src, start, exclude).failure.None?
    ensures src.groups == []
  {
    if src.groups != [] {
      var dims := DimensionsCreated(start.group, src.dimensions);
      var vr := VariablesCopied(lib, src.variables, exclude, start.(group := dims.group));
      var ar := AttributesCopied(lib, vr.group.name, src.attributes, AttrRun(vr.group.attributes, vr.diags, None));
      var withAttrs := Run(vr.group.(attributes := ar.attrs), vr.strays, ar.diags, ar.failure);
      ChildrenCopiedRefused(lib, srcWritable, src, withAttrs, |src.groups|, exclude);
    }
  }

  /**
   * Given a child handle, a pass that gets through leaves the destination
   * as it was, except that the parent's attributes are set again.
   */
  lemma ChildFilledGroup(lib: Library, srcWritable: bool, parent: Group, run: Run, i: nat, h0: OutGroup, exclude: seq<string>)
    requires run.failure.None?
    requires i < |parent.groups|
    requires ChildFilled(lib, srcWritable, parent, run, i, h0, exclude).failure.None?
    ensures ChildFilled(lib, srcWritable, parent, run, i, h0, exclude).group
         == run.group.(attributes := Overlay(lib, run.group.attributes, parent.attributes))
  {
    var c := parent.groups[i];
    var dims := DimensionsCreated(h0, c.dimensions);
    var cr := GroupCopied(lib, srcWritable, c, Run(dims.group, [], run.diags, None), exclude);
    AttributesCopiedMeaning(lib, run.group.name, parent.attributes, AttrRun(run.group.attributes, cr.diags, None));
  }

  /**
   * As written, the pass creates a child's dimensions on the new handle
   * before the recursive call creates them there again, which the library
   * refuses: given the fresh handle `createGroup` returns, a child with any
   * dimension fails.
   */
  lemma ChildFilledFails(lib: Library, srcWritable: bool, parent: Group, run: Run, i: nat, exclude: seq<string>)
    requires run.failure.None?
    requires i < |parent.groups| && parent.groups[i].dimensions != []
    ensures ChildFilled(lib, srcWritable, parent, run, i, EmptyGroup(parent.groups[i].name), exclude).failure.Some?
  {
    var c := parent.groups[i];
    var dims := DimensionsCreated(EmptyGroup(c.name), c.dimensions);
    DimensionsCreatedMeaning(EmptyGroup(c.name), c.dimensions);
    if dims.failure.None? {
      var cstart := Run(dims.group, [], run.diags, None);
      assert dims.group.dimensions[0] == c.dimensions[0];
      assert HasDimension(dims.group, c.dimensions[0].name);
      DimensionsCreatedRefusesReuse(dims.group, c.dimensions, 0);
      assert GroupCopied(lib, srcWritable, c, cstart, exclude).failure.Some?;
    }
  }

  /**
   * A successful `copy_group` leaves the destination group with: its
   * dimensions followed by every source dimension (same name, length and
   * unlimited flag, in order); its variables followed by one copy of each
   * source variable that is not excluded and has a known kind; its
   * attributes overlaid by the source group's; and a record showing that
   * every dimension was created before any variable.
   */
  lemma GroupCopiedShape(lib: Library, srcWritable: bool, src: Group, start: Run, exclude: seq<string>)
    requires start.failure.None?
    requires GroupCopied(lib, srcWritable, src, start, exclude).failure.None?
    ensures GroupCopied(lib, srcWritable, src, start, exclude).group ==
      OutGroup(start.group.name,
               start.group.dimensions + src.dimensions,
               start.group.variables + Kept(lib, src.variables, exclude),
               Overlay(lib, start.group.attributes, src.attributes),
               start.group.trace + DimensionEvents(src.dimensions) + CreationEvents(Kept(lib, src.variables, exclude)))
  {
    GroupCopiedNoChildren(lib, srcWritable, src, start, exclude);
    var dims := DimensionsCreated(start.group, src.dimensions);
    DimensionsCreatedMeaning(start.group, src.dimensions);
    var vstart := start.(group := dims.group);
    var vr := VariablesCopied(lib, src.variables, exclude, vstart);
    VariablesCopiedFrame(lib, src.variables, exclude, vstart);
    VariablesCopiedMeaning(lib, src.variables, exclude, vstart);
    AttributesCopiedMeaning(lib, vr.group.name, src.attributes, AttrRun(vr.group.attributes, vr.diags, None));
  }

  /** A group whose dimensions cannot all be created fails before any of its variables is created. */
  lemma GroupCopiedNeedsDimensions(lib: Library, srcWritable: bool, src: Group, start: Run, exclude: seq<string>)
    requires start.failure.None?
    requires !FreshNames(start.group, src.dimensions)
    ensures var r := GroupCopied(lib, srcWritable, src, start, exclude);
      r.failure.Some? && r.group.variables == start.group.variables
      && |r.group.trace| >= |start.group.trace| && r.group.trace[..|start.group.trace|] == start.group.trace
  {
    DimensionsCreatedMeaning(start.group, src.dimensions);
    DimensionsCreatedFrame(start.group, src.dimensions);
    DimensionsCreatedTrace(start.group, src.dimensions);
  }

  /** The dimension loop only appends to the record of definitions. */
  lemma {:induction false} DimensionsCreatedTrace(g: OutGroup, ds: seq<Dimension>)
    ensures var r := DimensionsCreated(g, ds);
      |r.group.trace| >= |g.trace| && r.group.trace[..|g.trace|] == g.trace
    decreases |ds|
  {
    if ds != [] {
      DimensionsCreatedTrace(g, ds[..|ds| - 1]);
    }
  }

  /**
   * Whatever happens, no variable with an excluded name reaches the
   * destination group, and the handles collected on the way are the ones
   * the run started with.
   */
  lemma GroupCopiedClean(lib: Library, srcWritable: bool, src: Group, start: Run, exclude: seq<string>)
    requires start.failure.None?
    requires Clean(start.group.variables, exclude)
    ensures var r := GroupCopied(lib, srcWritable, src, start, exclude);
      Clean(r.group.variables, exclude) && r.strays == start.strays
  {
    var dims := DimensionsCreated(start.group, src.dimensions);
    DimensionsCreatedFrame(start.group, src.dimensions);
    if dims.failure.None? {
      var vstart := start.(group := dims.group);
      VariablesCopiedFrame(lib, src.variables, exclude, vstart);
      var vr := VariablesCopied(lib, src.variables, exclude, vstart);
      if vr.failure.None? {
        var ar := AttributesCopied(lib, vr.group.name, src.attributes, AttrRun(vr.group.attributes, vr.diags, None));
        var withAttrs := Run(vr.group.(attributes := ar.attrs), vr.strays, ar.diags, ar.failure);
        if withAttrs.failure.None? && src.groups != [] {
          ChildrenCopiedRefused(lib, srcWritable, src, withAttrs, |src.groups|, exclude);
        }
      }
    }
  }
}
