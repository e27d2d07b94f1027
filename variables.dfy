/**
 * The variable step of `copy_group`: for each source variable whose name is
 * not excluded, create a destination variable of the matching element type
 * over the same dimension names, write the data read from the source, and
 * copy the variable's attributes.
 */
module Variables {
  import opened NetCDF
  import opened Attributes

  /**
   * The element type a variable of each kind is created, read and written
   * with.  As written, char variables use Int8, like byte variables.
   */
  function VariableElem(k: Kind): (t: ElemType)
    ensures t == I8 <==> k == Byte || k == Char
    ensures t == Str <==> k == String
    ensures t == F32 <==> k == Float
    ensures t == F64 <==> k == Double
  {
    match k
    case Float => F32
    case Byte => I8
    case Char => I8
    case Short => I16
    case Int32 => I32
    case Double => F64
    case UByte => U8
    case UShort => U16
    case UInt32 => U32
    case Int64 => I64
    case UInt64 => U64
    case String => Str
  }

  /** Only byte and char share an element type: every other kind keeps its own. */
  lemma VariableElemSeparatesKinds(k1: Kind, k2: Kind)
    requires k1 != k2 && VariableElem(k1) == VariableElem(k2)
    ensures {k1, k2} == {Byte, Char}
  {
  }

  /** Kinds whose attributes are copied before the data is written; the others write the data first. */
  predicate AttributesFirst(k: Kind)
  {
    k == Float || k == Double || k == String
  }

  /**
   * The state `copy_group` threads: the destination group, the groups it
   * created elsewhere (see `Groups`), the console, and why it stopped.
   */
  datatype Run = Run(group: OutGroup, strays: seq<OutGroup>, diags: seq<Diagnostic>, failure: Option<Failure>)

  /** The destination group with its last variable replaced by `v`. */
  function Place(g: OutGroup, v: OutVariable): (r: OutGroup)
    requires |g.variables| > 0
    ensures r.variables == g.variables[..|g.variables| - 1] + [v]
  {
    g.(variables := g.variables[..|g.variables| - 1] + [v])
  }

  /** Exactly the part of a run a variable step may change. */
  predicate VariableStepFrame(run: Run, r: Run, name: string)
  {
    && r.strays == run.strays
    && r.group.name == run.group.name
    && r.group.dimensions == run.group.dimensions
    && r.group.attributes == run.group.attributes
    && (|| (r.group.variables == run.group.variables && r.group.trace == run.group.trace)
        || (&& |r.group.variables| == |run.group.variables| + 1
            && r.group.variables[..|run.group.variables|] == run.group.variables
            && r.group.variables[|run.group.variables|].name == name
            && r.group.trace == run.group.trace + [VariableCreated(name)]))
  }

  /** One pass of the variable loop's body for a variable that is not excluded. */
  function VariableCopied(lib: Library, n: Variable, run: Run): (r: Run)
    requires run.failure.None?
    ensures VariableStepFrame(run, r, n.name)
  {
    match n.kind
    case None => run.(diags := run.diags + [InvalidVariableType(n.name)])
    case Some(k) =>
      var t := VariableElem(k);
      match CreateVariable(run.group, n.name, t, n.dimensions)
      case Err(f) => run.(failure := Some(f))
      case Ok(g) =>
        var v := OutVariable(n.name, t, n.dimensions, None, map[]);
        var read := Read(lib, k, n.data, t);
        var ar := AttributesCopied(lib, n.name, n.attributes, AttrRun(map[], run.diags, None));
        if AttributesFirst(k) then
          var v1 := v.(attributes := ar.attrs);
          if ar.failure.Some? then Run(Place(g, v1), run.strays, ar.diags, ar.failure)
          else if read.None? then Run(Place(g, v1), run.strays, ar.diags, Some(Trap("nil read of " + n.name)))
          else Run(Place(g, v1.(data := read)), run.strays, ar.diags, None)
        else if read.None? then run.(group := g, failure := Some(Trap("nil read of " + n.name)))
        else Run(Place(g, v.(data := read, attributes := ar.attrs)), run.strays, ar.diags, ar.failure)
  }

  /** The variable a successful step adds: same name and dimensions, the kind's element type, the data as read, the attributes copied. */
  function Expected(lib: Library, n: Variable, k: Kind): OutVariable
  {
    OutVariable(n.name, VariableElem(k), n.dimensions, Some(n.data), Overlay(lib, map[], n.attributes))
  }

  /**
   * A variable of no known kind only prints a diagnostic.  A variable of a
   * known kind is copied exactly when its name is new in the group, its data
   * reads with the kind's element type and none of its attributes traps;
   * then the group gains `Expected(lib, n, k)` and nothing else.
   */
  lemma VariableCopiedMeaning(lib: Library, n: Variable, run: Run)
    requires run.failure.None?
    ensures var r := VariableCopied(lib, n, run);
      && (n.kind.None? ==> r == run.(diags := run.diags + [InvalidVariableType(n.name)]))
      && (n.kind.Some? ==>
            var k := n.kind.value;
            && (r.failure.None? <==>
                  && !HasVariable(run.group, n.name)
                  && lib.readable(k, VariableElem(k))
                  && forall i :: 0 <= i < |n.attributes| ==> !AttributeAction(lib, n.attributes[i]).Abort?)
            && (r.failure.None? ==>
                  r.group == run.group.(variables := run.group.variables + [Expected(lib, n, k)],
                                        trace := run.group.trace + [VariableCreated(n.name)])))
  {
    if n.kind.Some? {
      AttributesCopiedMeaning(lib, n.name, n.attributes, AttrRun(map[], run.diags, None));
    }
  }

  /** What a successful variable step leaves in the group. */
  lemma VariableCopiedGroup(lib: Library, n: Variable, run: Run)
    requires run.failure.None?
    requires VariableCopied(lib, n, run).failure.None?
    ensures n.kind.None? ==> VariableCopied(lib, n, run).group == run.group
    ensures n.kind.Some? ==>
      VariableCopied(lib, n, run).group ==
        run.group.(variables := run.group.variables + [Expected(lib, n, n.kind.value)],
                   trace := run.group.trace + [VariableCreated(n.name)])
  {
    if n.kind.Some? {
      AttributesCopiedMeaning(lib, n.name, n.attributes, AttrRun(map[], run.diags, None));
    }
  }

  /** One variable step, as the body of the loop in `copy_group` performs it. */
  method CopyVariable(lib: Library, n: Variable, run: Run) returns (r: Run)
    requires run.failure.None?
    ensures r == VariableCopied(lib, n, run)
  {
    match n.kind {
      case None =>
        r := run.(diags := run.diags + [InvalidVariableType(n.name)]);
      case Some(k) =>
        var t := VariableElem(k);
        var created := CreateVariable(run.group, n.name, t, n.dimensions);
        if created.Err? {
          return run.(failure := Some(created.failure));
        }
        var g := created.value;
        var v := OutVariable(n.name, t, n.dimensions, None, map[]);
        var read := Read(lib, k, n.data, t);
        if AttributesFirst(k) {
          var v1, diags, failure := CopyAttributesForVariable(lib, n, v, run.diags);
          if failure.Some? {
            return Run(Place(g, v1), run.strays, diags, failure);
          }
          if read.None? {
            return Run(Place(g, v1), run.strays, diags, Some(Trap("nil read of " + n.name)));
          }
          r := Run(Place(g, v1.(data := read)), run.strays, diags, None);
        } else {
          if read.None? {
            return run.(group := g, failure := Some(Trap("nil read of " + n.name)));
          }
          var v1, diags, failure := CopyAttributesForVariable(lib, n, v.(data := read), run.diags);
          r := Run(Place(g, v1), run.strays, diags, failure);
        }
    }
  }

  /** The variable loop over `vars`: excluded names are passed over, the loop stops at the first failure. */
  function VariablesCopied(lib: Library, vars: seq<Variable>, exclude: seq<string>, start: Run): Run
    requires start.failure.None?
    decreases |vars|
  {
    if vars == [] then start
    else
      var prev := VariablesCopied(lib, vars[..|vars| - 1], exclude, start);
      var n := vars[|vars| - 1];
      if prev.failure.Some? || n.name in exclude then prev else VariableCopied(lib, n, prev)
  }

  /** Once the loop has stopped, later variables change nothing. */
  lemma {:induction false} VariablesCopiedStops(lib: Library, vars: seq<Variable>, exclude: seq<string>, start: Run, i: nat, j: nat)
    requires start.failure.None?
    requires i <= j <= |vars|
    requires VariablesCopied(lib, vars[..i], exclude, start).failure.Some?
    ensures VariablesCopied(lib, vars[..j], exclude, start) == VariablesCopied(lib, vars[..i], exclude, start)
    decreases j
  {
    if j > i {
      VariablesCopiedStops(lib, vars, exclude, start, i, j - 1);
      var p := vars[..j];
      assert p[..|p| - 1] == vars[..j - 1];
      var prev := VariablesCopied(lib, vars[..j - 1], exclude, start);
      assert prev.failure.Some?;
      assert VariablesCopied(lib, p, exclude, start) == prev;
    } else {
      assert vars[..j] == vars[..i];
    }
  }

  /** One more variable: the fold over `vars[..i + 1]` is one step past the fold over `vars[..i]`. */
  lemma VariablesCopiedSnoc(lib: Library, vars: seq<Variable>, exclude: seq<string>, start: Run, i: nat)
    requires start.failure.None?
    requires i < |vars|
    ensures var prev := VariablesCopied(lib, vars[..i], exclude, start);
      VariablesCopied(lib, vars[..i + 1], exclude, start)
        == if prev.failure.Some? || vars[i].name in exclude then prev else VariableCopied(lib, vars[i], prev)
  {
    assert vars[..i + 1][..i] == vars[..i];
  }

  /** The loop of `copy_group` over the group's variables. */
  method CopyVariables(lib: Library, vars: seq<Variable>, exclude: seq<string>, run: Run) returns (r: Run)
    requires run.failure.None?
    ensures r == VariablesCopied(lib, vars, exclude, run)
  {
    r := run;
    var i := 0;
    while i < |vars|
      invariant 0 <= i <= |vars|
      invariant r.failure.None?
      invariant r == VariablesCopied(lib, vars[..i], exclude, run)
    {
      var n := vars[i];
      VariablesCopiedSnoc(lib, vars, exclude, run, i);
      if n.name !in exclude {
        r := CopyVariable(lib, n, r);
        if r.failure.Some? {
          VariablesCopiedStops(lib, vars, exclude, run, i + 1, |vars|);
          assert vars[..|vars|] == vars;
          return;
        }
      }
      i := i + 1;
    }
    assert vars[..i] == vars;
  }

  /** No variable of `vs` carries an excluded name. */
  predicate Clean(vs: seq<OutVariable>, exclude: seq<string>)
  {
    forall i :: 0 <= i < |vs| ==> vs[i].name !in exclude
  }

  /**
   * The variables a successful loop adds, in source order: one per source
   * variable whose name is not excluded and whose kind is known.
   */
  function Kept(lib: Library, vars: seq<Variable>, exclude: seq<string>): seq<OutVariable>
    decreases |vars|
  {
    if vars == [] then []
    else
      var n := vars[|vars| - 1];
      Kept(lib, vars[..|vars| - 1], exclude)
        + (if n.name !in exclude && n.kind.Some? then [Expected(lib, n, n.kind.value)] else [])
  }

  /** The events a successful loop records: one variable creation per kept variable. */
  function CreationEvents(vs: seq<OutVariable>): seq<Event>
    decreases |vs|
  {
    if vs == [] then [] else CreationEvents(vs[..|vs| - 1]) + [VariableCreated(vs[|vs| - 1].name)]
  }

  lemma {:induction false} CreationEventsAppend(vs: seq<OutVariable>, ws: seq<OutVariable>)
    ensures CreationEvents(vs + ws) == CreationEvents(vs) + CreationEvents(ws)
    decreases |ws|
  {
    if ws == [] {
      assert vs + ws == vs;
    } else {
      CreationEventsAppend(vs, ws[..|ws| - 1]);
      assert (vs + ws)[..|vs + ws| - 1] == vs + ws[..|ws| - 1];
    }
  }

  /**
   * The variable loop never touches the group's dimensions, name or
   * attributes, nor the groups created elsewhere, and never adds a variable
   * with an excluded name.
   */
  lemma {:induction false} VariablesCopiedFrame(lib: Library, vars: seq<Variable>, exclude: seq<string>, start: Run)
    requires start.failure.None?
    ensures var r := VariablesCopied(lib, vars, exclude, start);
      && r.strays == start.strays
      && r.group.name == start.group.name
      && r.group.dimensions == start.group.dimensions
      && r.group.attributes == start.group.attributes
      && (Clean(start.group.variables, exclude) ==> Clean(r.group.variables, exclude))
    decreases |vars|
  {
    if vars != [] {
      var p := vars[..|vars| - 1];
      VariablesCopiedFrame(lib, p, exclude, start);
    }
  }

  /**
   * When the variable loop succeeds, the group has gained exactly `Kept`, in
   * source order, and one creation event per kept variable.
   */
  lemma {:induction false} VariablesCopiedMeaning(lib: Library, vars: seq<Variable>, exclude: seq<string>, start: Run)
    requires start.failure.None?
    ensures var r := VariablesCopied(lib, vars, exclude, start);
      r.failure.None? ==>
        && r.group.variables == start.group.variables + Kept(lib, vars, exclude)
        && r.group.trace == start.group.trace + CreationEvents(Kept(lib, vars, exclude))
    decreases |vars|
  {
    if vars != [] {
      var p := vars[..|vars| - 1];
      var n := vars[|vars| - 1];
      var prev := VariablesCopied(lib, p, exclude, start);
      var r := VariablesCopied(lib, vars, exclude, start);
      if r.failure.None? {
        assert prev.failure.None?;
        VariablesCopiedMeaning(lib, p, exclude, start);
        var kp := Kept(lib, p, exclude);
        if n.name in exclude || n.kind.None? {
          assert Kept(lib, vars, exclude) == kp;
          if n.name !in exclude {
            VariableCopiedGroup(lib, n, prev);
          }
        } else {
          var e := Expected(lib, n, n.kind.value);
          assert Kept(lib, vars, exclude) == kp + [e];
          assert r == VariableCopied(lib, n, prev);
          VariableCopiedGroup(lib, n, prev);
          CreationEventsAppend(kp, [e]);
          assert CreationEvents([e]) == [VariableCreated(n.name)];
        }
      }
    }
  }
}
