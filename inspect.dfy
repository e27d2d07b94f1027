/**
 * The two lookups the variable listing uses: the short tag shown for a
 * variable's kind (`get_variable_type`) and the text of its `units`
 * attribute (`get_variable_unit`).
 */
module Inspect {
  import opened NetCDF

  /** The tag printed for a kind; `None` is a variable whose kind the library does not report. */
  function TypeTag(kind: Option<Kind>): (t: string)
    ensures 4 <= |t| <= 6 && t[0] == '(' && t[|t| - 1] == ')'
  {
    match kind
    case None => "(---)"
    case Some(k) =>
      match k
      case Float => "(f32)"
      case Byte => "(byte)"
      case Char => "(char)"
      case Short => "(i16)"
      case Int32 => "(i32)"
      case Double => "(f64)"
      case UByte => "(ubyt)"
      case UShort => "(ui16)"
      case UInt32 => "(ui32)"
      case Int64 => "(i64)"
      case UInt64 => "(ui64)"
      case String => "(str)"
  }

  /** No two kinds share a tag, and no kind shares the tag of an unknown kind. */
  lemma TypeTagInjective(a: Option<Kind>, b: Option<Kind>)
    requires a != b
    ensures TypeTag(a) != TypeTag(b)
  {
  }

  const UnitsName := "units"
  const NoUnit := "-"
  const UndecodableUnit := "err"
  const UnitSeparator := "; "

  /** An attribute the lookup stops at: named `units` and of char or string kind; any other kind is passed over. */
  predicate IsUnits(a: Attribute)
  {
    a.name == UnitsName && (a.kind == Some(Char) || a.kind == Some(String))
  }

  /** The text of one stored string element. */
  function TextOf(v: Value): string
  {
    if v.Text? then v.text else ""
  }

  /** `joined(separator:)`. */
  function Join(xs: seq<Value>, sep: string): (r: string)
    ensures xs == [] ==> r == ""
    ensures |xs| == 1 ==> r == TextOf(xs[0])
    decreases |xs|
  {
    if xs == [] then ""
    else if |xs| == 1 then TextOf(xs[0])
    else TextOf(xs[0]) + sep + Join(xs[1..], sep)
  }

  /** Joining one more string appends the separator and that string. */
  lemma {:induction false} JoinSnoc(xs: seq<Value>, x: Value, sep: string)
    requires xs != []
    ensures Join(xs + [x], sep) == Join(xs, sep) + sep + TextOf(x)
    decreases |xs|
  {
    assert (xs + [x])[0] == xs[0];
    if |xs| > 1 {
      assert (xs + [x])[1..] == xs[1..] + [x];
      JoinSnoc(xs[1..], x, sep);
    }
  }

  /** The total length of the strings `xs`. */
  function TextLength(xs: seq<Value>): nat
    decreases |xs|
  {
    if xs == [] then 0 else |TextOf(xs[0])| + TextLength(xs[1..])
  }

  /** A join is as long as its strings together, plus one separator between each two of them. */
  lemma {:induction false} JoinLength(xs: seq<Value>, sep: string)
    requires xs != []
    ensures |Join(xs, sep)| == TextLength(xs) + (|xs| - 1) * |sep|
    decreases |xs|
  {
    if |xs| > 1 {
      JoinLength(xs[1..], sep);
      assert (|xs| - 1) * |sep| == (|xs| - 2) * |sep| + |sep|;
    }
  }

  /** The text of a `units` attribute: its bytes decoded, or its strings joined; a nil read counts as empty. */
  function UnitText(lib: Library, a: Attribute): string
    requires IsUnits(a)
  {
    if a.kind == Some(Char) then
      var bytes := Read(lib, Char, a.content, U8);
      var decoded := lib.decodeUtf8(if bytes.Some? then bytes.value else []);
      if decoded.Some? then decoded.value else UndecodableUnit
    else
      var strings := Read(lib, String, a.content, Str);
      Join(if strings.Some? then strings.value else [], UnitSeparator)
  }

  /** `i` is the first attribute the lookup stops at. */
  predicate FirstUnits(attrs: seq<Attribute>, i: int)
  {
    0 <= i < |attrs| && IsUnits(attrs[i]) && forall j :: 0 <= j < i ==> !IsUnits(attrs[j])
  }

  /** The lookup stops at no attribute. */
  predicate NoUnits(attrs: seq<Attribute>)
  {
    forall i :: 0 <= i < |attrs| ==> !IsUnits(attrs[i])
  }

  /** Passing over a first attribute the lookup does not stop at. */
  lemma UnitsShift(attrs: seq<Attribute>)
    requires attrs != [] && !IsUnits(attrs[0])
    ensures NoUnits(attrs) <==> NoUnits(attrs[1..])
    ensures forall i :: FirstUnits(attrs, i) <==> FirstUnits(attrs[1..], i - 1)
  {
    assert forall i :: 1 <= i < |attrs| ==> attrs[i] == attrs[1..][i - 1];
    forall i | FirstUnits(attrs[1..], i - 1)
      ensures FirstUnits(attrs, i)
    {
      forall j | 0 <= j < i
        ensures !IsUnits(attrs[j])
      {
        if j > 0 {
          assert attrs[j] == attrs[1..][j - 1];
        }
      }
    }
  }

  /**
   * `get_variable_unit`: the text of the first `units` attribute of char
   * or string kind, and "-" when there is none.
   */
  function VariableUnit(lib: Library, attrs: seq<Attribute>): (u: string)
    ensures NoUnits(attrs) ==> u == NoUnit
    ensures forall i :: FirstUnits(attrs, i) ==> u == UnitText(lib, attrs[i])
    decreases |attrs|
  {
    if attrs == [] then NoUnit
    else if IsUnits(attrs[0]) then UnitText(lib, attrs[0])
    else
      UnitsShift(attrs);
      VariableUnit(lib, attrs[1..])
  }
}
