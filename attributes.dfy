/**
 * The attribute copier: `copy_attributes_for_variable` and
 * `copy_attributes_for_group` walk the attributes of a source variable or
 * group and set each one on the destination holder, dispatching on its kind.
 * The two Swift functions differ only in the holder they write to, so the
 * walk is modelled once (`CopyAttributes`) and wrapped for each holder.
 */
module Attributes {
  import opened NetCDF

  /** Written instead of the text of a char attribute whose bytes are not UTF-8. */
  const Placeholder := "error while copying attribute"

  /** Messages the copier prints and then carries on. */
  datatype Diagnostic =
    | InvalidVariableType(variable: string)   // a variable of no known kind was skipped
    | UnreadableAttribute(holder: string)     // an attribute of no known kind was skipped

  /**
   * The element type each attribute kind is read with.  As written, ushort
   * attributes are read as `[UInt8]`, and char attributes as the bytes of a text.
   */
  function AttrReadType(k: Kind): (t: ElemType)
    ensures k != UShort ==> (t == U8 <==> k == UByte || k == Char)
    ensures k == UShort ==> t == U8
  {
    match k
    case Float => F32
    case Byte => I8
    case Char => U8
    case Short => I16
    case Int32 => I32
    case Double => F64
    case UByte => U8
    case UShort => U8
    case UInt32 => U32
    case Int64 => I64
    case UInt64 => U64
    case String => Str
  }

  /** Kinds whose nil read falls back to no values instead of trapping. */
  predicate FallsBackToEmpty(k: Kind)
  {
    k == Char || k == Int32 || k == Double
  }

  /** What the copier does with one source attribute. */
  datatype AttrAction = Skip | Set(value: AttrValue) | Abort(failure: Failure)

  /** The text set for a char attribute: the decoded bytes, or the placeholder when decoding fails. */
  function DecodedText(lib: Library, bytes: seq<Value>): string
  {
    match lib.decodeUtf8(bytes)
    case Some(s) => s
    case None => Placeholder
  }

  function AttributeAction(lib: Library, a: Attribute): (r: AttrAction)
    // an attribute of no known kind is skipped, nothing else is
    ensures r.Skip? <==> a.kind.None?
    // a nil read stops the copy, except for the kinds that fall back to no values
    ensures r.Abort? <==> a.kind.Some? && !FallsBackToEmpty(a.kind.value)
                          && !lib.readable(a.kind.value, AttrReadType(a.kind.value))
    ensures r.Abort? ==> r.failure.Trap?
    // a char attribute becomes one text: the decoded bytes (none when the read is nil) or the placeholder
    ensures a.kind == Some(Char) ==>
      r == Set(TextValue(DecodedText(lib, if lib.readable(Char, U8) then a.content else [])))
    // any other known kind is written with its read element type and exactly the values read
    ensures r.Set? && a.kind != Some(Char) ==>
      r.value == Values(AttrReadType(a.kind.value),
                        if lib.readable(a.kind.value, AttrReadType(a.kind.value)) then a.content else [])
  {
    match a.kind
    case None => Skip
    case Some(k) =>
      var t := AttrReadType(k);
      var read := Read(lib, k, a.content, t);
      if k == Char then
        Set(TextValue(DecodedText(lib, if read.Some? then read.value else [])))
      else if read.Some? then
        Set(Values(t, read.value))
      else if FallsBackToEmpty(k) then
        Set(Values(t, []))
      else
        Abort(Trap("nil attribute read of " + a.name))
  }

  /** The state a walk over attributes threads: the holder's attributes, the console, and why it stopped. */
  datatype AttrRun = AttrRun(attrs: map<string, AttrValue>, diags: seq<Diagnostic>, failure: Option<Failure>)

  function AttributeStep(lib: Library, holder: string, run: AttrRun, a: Attribute): AttrRun
  {
    match AttributeAction(lib, a)
    case Skip => run.(diags := run.diags + [UnreadableAttribute(holder)])
    case Set(v) => run.(attrs := run.attrs[a.name := v])
    case Abort(f) => run.(failure := Some(f))
  }

  /** The attribute walk over `src`, stopping at the first failure. */
  function AttributesCopied(lib: Library, holder: string, src: seq<Attribute>, start: AttrRun): AttrRun
    requires start.failure.None?
    decreases |src|
  {
    if src == [] then start
    else
      var prev := AttributesCopied(lib, holder, src[..|src| - 1], start);
      if prev.failure.Some? then prev else AttributeStep(lib, holder, prev, src[|src| - 1])
  }

  /** One more attribute: the walk over `src[..i + 1]` is one step past the walk over `src[..i]`. */
  lemma AttributesCopiedSnoc(lib: Library, holder: string, src: seq<Attribute>, start: AttrRun, i: nat)
    requires start.failure.None?
    requires i < |src|
    ensures var prev := AttributesCopied(lib, holder, src[..i], start);
      AttributesCopied(lib, holder, src[..i + 1], start)
        == if prev.failure.Some? then prev else AttributeStep(lib, holder, prev, src[i])
  {
    assert src[..i + 1][..i] == src[..i];
  }

  /** A stopped walk stays as it is over one more attribute. */
  lemma AttributesCopiedStopsOnce(lib: Library, holder: string, src: seq<Attribute>, start: AttrRun, k: nat)
    requires start.failure.None?
    requires k < |src|
    requires AttributesCopied(lib, holder, src[..k], start).failure.Some?
    ensures AttributesCopied(lib, holder, src[..k + 1], start) == AttributesCopied(lib, holder, src[..k], start)
  {
    AttributesCopiedSnoc(lib, holder, src, start, k);
  }

  /** Once the walk has stopped, later attributes change nothing. */
  lemma {:induction false} AttributesCopiedStops(lib: Library, holder: string, src: seq<Attribute>, start: AttrRun, i: nat, j: nat)
    requires start.failure.None?
    requires i <= j <= |src|
    requires AttributesCopied(lib, holder, src[..i], start).failure.Some?
    ensures AttributesCopied(lib, holder, src[..j], start) == AttributesCopied(lib, holder, src[..i], start)
    decreases j
  {
    if j > i {
      AttributesCopiedStops(lib, holder, src, start, i, j - 1);
      AttributesCopiedStopsOnce(lib, holder, src, start, j - 1);
    }
  }

  method CopyAttributes(lib: Library, holder: string, src: seq<Attribute>, attrs: map<string, AttrValue>, diags: seq<Diagnostic>)
    returns (attrs': map<string, AttrValue>, diags': seq<Diagnostic>, failure: Option<Failure>)
    ensures AttrRun(attrs', diags', failure) == AttributesCopied(lib, holder, src, AttrRun(attrs, diags, None))
  {
    ghost var start := AttrRun(attrs, diags, None);
    attrs', diags', failure := attrs, diags, None;
    var i := 0;
    while i < |src|
      invariant 0 <= i <= |src|
      invariant AttrRun(attrs', diags', None) == AttributesCopied(lib, holder, src[..i], start)
    {
      var a := src[i];
      AttributesCopiedSnoc(lib, holder, src, start, i);
      match AttributeAction(lib, a) {
        case Skip =>
          diags' := diags' + [UnreadableAttribute(holder)];
        case Set(v) =>
          attrs' := attrs'[a.name := v];
        case Abort(f) =>
          failure := Some(f);
          AttributesCopiedStops(lib, holder, src, start, i + 1, |src|);
          assert src[..|src|] == src;
          return;
      }
      i := i + 1;
    }
    assert src[..i] == src;
  }

  /** `copy_attributes_for_variable`: the walk over a source variable's attributes onto the created variable. */
  method CopyAttributesForVariable(lib: Library, n: Variable, v: OutVariable, diags: seq<Diagnostic>)
    returns (v': OutVariable, diags': seq<Diagnostic>, failure: Option<Failure>)
    ensures var r := AttributesCopied(lib, v.name, n.attributes, AttrRun(v.attributes, diags, None));
      v' == v.(attributes := r.attrs) && diags' == r.diags && failure == r.failure
  {
    var attrs;
    attrs, diags', failure := CopyAttributes(lib, v.name, n.attributes, v.attributes, diags);
    v' := v.(attributes := attrs);
  }

  /** `copy_attributes_for_group`: the walk over a source group's attributes onto a destination group. */
  method CopyAttributesForGroup(lib: Library, n: Group, g: OutGroup, diags: seq<Diagnostic>)
    returns (g': OutGroup, diags': seq<Diagnostic>, failure: Option<Failure>)
    ensures var r := AttributesCopied(lib, g.name, n.attributes, AttrRun(g.attributes, diags, None));
      g' == g.(attributes := r.attrs) && diags' == r.diags && failure == r.failure
  {
    var attrs;
    attrs, diags', failure := CopyAttributes(lib, g.name, n.attributes, g.attributes, diags);
    g' := g.(attributes := attrs);
  }

  // ---------------------------------------------------------------------
  // What the walk computes

  /** The holder's attributes after setting, in order, every attribute of `src` that is set. */
  function Overlay(lib: Library, base: map<string, AttrValue>, src: seq<Attribute>): map<string, AttrValue>
    decreases |src|
  {
    if src == [] then base
    else
      var prev := Overlay(lib, base, src[..|src| - 1]);
      var a := src[|src| - 1];
      match AttributeAction(lib, a)
      case Set(v) => prev[a.name := v]
      case _ => prev
  }

  /** How many attributes of `src` have no known kind. */
  function UnknownCount(src: seq<Attribute>): nat
    decreases |src|
  {
    if src == [] then 0
    else UnknownCount(src[..|src| - 1]) + (if src[|src| - 1].kind.None? then 1 else 0)
  }

  /** `n` copies of the same diagnostic. */
  function Repeated(d: Diagnostic, n: nat): (r: seq<Diagnostic>)
    ensures |r| == n && forall i :: 0 <= i < n ==> r[i] == d
  {
    seq(n, _ => d)
  }

  /**
   * The walk fails exactly when some attribute's read traps; when it does not,
   * the holder ends with the overlay of the set attributes, and one diagnostic
   * naming the holder is printed per attribute of no known kind.
   */
  lemma {:induction false} AttributesCopiedMeaning(lib: Library, holder: string, src: seq<Attribute>, start: AttrRun)
    requires start.failure.None?
    ensures var r := AttributesCopied(lib, holder, src, start);
      && (r.failure.None? <==> forall i :: 0 <= i < |src| ==> !AttributeAction(lib, src[i]).Abort?)
      && (r.failure.None? ==> r.attrs == Overlay(lib, start.attrs, src))
      && (r.failure.None? ==> r.diags == start.diags + Repeated(UnreadableAttribute(holder), UnknownCount(src)))
  {
    AttributesCopiedFailure(lib, holder, src, start);
    AttributesCopiedResult(lib, holder, src, start);
  }

  /** The walk fails exactly when some attribute's read traps. */
  lemma {:induction false} AttributesCopiedFailure(lib: Library, holder: string, src: seq<Attribute>, start: AttrRun)
    requires start.failure.None?
    ensures AttributesCopied(lib, holder, src, start).failure.None?
        <==> forall i :: 0 <= i < |src| ==> !AttributeAction(lib, src[i]).Abort?
    decreases |src|
  {
    if src != [] {
      var p, a := src[..|src| - 1], src[|src| - 1];
      AttributesCopiedFailure(lib, holder, p, start);
      var prev := AttributesCopied(lib, holder, p, start);
      assert forall i :: 0 <= i < |p| ==> p[i] == src[i];
      if prev.failure.Some? {
        var i :| 0 <= i < |p| && AttributeAction(lib, p[i]).Abort?;
        assert AttributeAction(lib, src[i]).Abort?;
      }
    }
  }

  /** A walk that does not fail leaves the overlay and one diagnostic per attribute of no known kind. */
  lemma {:induction false} AttributesCopiedResult(lib: Library, holder: string, src: seq<Attribute>, start: AttrRun)
    requires start.failure.None?
    ensures var r := AttributesCopied(lib, holder, src, start);
      r.failure.None? ==>
        r.attrs == Overlay(lib, start.attrs, src)
        && r.diags == start.diags + Repeated(UnreadableAttribute(holder), UnknownCount(src))
    decreases |src|
  {
    if src != [] {
      var p, a := src[..|src| - 1], src[|src| - 1];
      AttributesCopiedResult(lib, holder, p, start);
      var prev := AttributesCopied(lib, holder, p, start);
      if prev.failure.None? {
        var action := AttributeAction(lib, a);
        assert AttributesCopied(lib, holder, src, start) == AttributeStep(lib, holder, prev, a);
        assert UnknownCount(src) == UnknownCount(p) + if a.kind.None? then 1 else 0;
        if action.Skip? {
          assert Repeated(UnreadableAttribute(holder), UnknownCount(p)) + [UnreadableAttribute(holder)]
              == Repeated(UnreadableAttribute(holder), UnknownCount(src));
        }
      }
    }
  }

  /** Setting `k` before the overlay and again after it is the same as setting it only after. */
  lemma {:induction false} OverlayAbsorbs(lib: Library, base: map<string, AttrValue>, src: seq<Attribute>, k: string, v: AttrValue)
    ensures Overlay(lib, base[k := v], src)[k := v] == Overlay(lib, base, src)[k := v]
    decreases |src|
  {
    if src != [] {
      var p := src[..|src| - 1];
      var a := src[|src| - 1];
      OverlayAbsorbs(lib, base, p, k, v);
      match AttributeAction(lib, a)
      case Set(w) =>
        var x := Overlay(lib, base[k := v], p);
        var y := Overlay(lib, base, p);
        if a.name == k {
          assert x[k := w][k := v] == x[k := v];
          assert y[k := w][k := v] == y[k := v];
        } else {
          assert x[a.name := w][k := v] == x[k := v][a.name := w];
          assert y[a.name := w][k := v] == y[k := v][a.name := w];
        }
      case _ =>
    }
  }

  /** Overlaying the same attributes twice leaves what overlaying them once leaves. */
  lemma {:induction false} OverlayIdempotent(lib: Library, base: map<string, AttrValue>, src: seq<Attribute>)
    ensures Overlay(lib, Overlay(lib, base, src), src) == Overlay(lib, base, src)
    decreases |src|
  {
    if src != [] {
      var p := src[..|src| - 1];
      var a := src[|src| - 1];
      var once := Overlay(lib, base, p);
      match AttributeAction(lib, a)
      case Set(v) =>
        // the second pass starts from once[a.name := v]
        OverlayAbsorbs(lib, once, p, a.name, v);
        OverlayIdempotent(lib, base, p);
      case _ =>
        OverlayIdempotent(lib, base, p);
    }
  }

  /**
   * Copying the same attributes again onto the holder they were copied to
   * succeeds and leaves the holder's attributes as they were; only the
   * diagnostics are printed again.  This is what the re-copy of a group's
   * attributes after each child group amounts to.
   */
  lemma AttributesRecopyIdempotent(lib: Library, holder: string, src: seq<Attribute>, start: AttrRun, diags: seq<Diagnostic>)
    requires start.failure.None?
    requires AttributesCopied(lib, holder, src, start).failure.None?
    ensures var once := AttributesCopied(lib, holder, src, start);
      var twice := AttributesCopied(lib, holder, src, AttrRun(once.attrs, diags, None));
      twice.failure.None? && twice.attrs == once.attrs
      && twice.diags == diags + Repeated(UnreadableAttribute(holder), UnknownCount(src))
  {
    var once := AttributesCopied(lib, holder, src, start);
    AttributesCopiedMeaning(lib, holder, src, start);
    AttributesCopiedMeaning(lib, holder, src, AttrRun(once.attrs, diags, None));
    OverlayIdempotent(lib, start.attrs, src);
  }

  /** No two attributes of a holder share a name (netCDF keeps attribute names unique per holder). */
  predicate UniqueNames(src: seq<Attribute>)
  {
    forall i, j :: 0 <= i < j < |src| ==> src[i].name != src[j].name
  }

  /**
   * With unique names, every attribute that is set ends on the holder under
   * its own name with the value its kind dictates, and an attribute of no
   * known kind leaves its name as it was.
   */
  lemma {:induction false} OverlayByName(lib: Library, base: map<string, AttrValue>, src: seq<Attribute>, i: nat)
    requires UniqueNames(src)
    requires i < |src|
    ensures AttributeAction(lib, src[i]).Set? ==>
      src[i].name in Overlay(lib, base, src) &&
      Overlay(lib, base, src)[src[i].name] == AttributeAction(lib, src[i]).value
    ensures !AttributeAction(lib, src[i]).Set? ==>
      (src[i].name in Overlay(lib, base, src) <==> src[i].name in base)
    decreases |src|
  {
    var p := src[..|src| - 1];
    var a := src[|src| - 1];
    if i < |src| - 1 {
      assert p[i] == src[i];
      assert UniqueNames(p) by {
        forall x, y | 0 <= x < y < |p| ensures p[x].name != p[y].name {
          assert p[x] == src[x] && p[y] == src[y];
        }
      }
      OverlayByName(lib, base, p, i);
      assert a.name != src[i].name;
    } else {
      assert a == src[i];
      if !AttributeAction(lib, a).Set? {
        OverlayOmits(lib, base, p, a.name);
      }
    }
  }

  /** A name no attribute of `src` carries is left as it was: present exactly when it was, with the same value. */
  lemma {:induction false} OverlayOmits(lib: Library, base: map<string, AttrValue>, src: seq<Attribute>, k: string)
    requires forall i :: 0 <= i < |src| ==> src[i].name != k
    ensures k in Overlay(lib, base, src) <==> k in base
    ensures k in base ==> Overlay(lib, base, src)[k] == base[k]
    decreases |src|
  {
    if src != [] {
      var p := src[..|src| - 1];
      assert forall i :: 0 <= i < |p| ==> p[i] == src[i];
      OverlayOmits(lib, base, p, k);
    }
  }
}
