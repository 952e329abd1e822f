/**
 * The decoded Mysqlx.Datatypes values a capability carries, and the way
 * getCapabilities sorts each one into a string scalar, a bool scalar, an
 * array of strings, or a shape it skips.
 */
module Values {
  import opened Wrappers

  datatype AnyType = AnyScalar | AnyObject | AnyArray

  datatype ScalarType = VSint | VUint | VNull | VOctets | VDouble | VFloat | VBool | VString

  /** Mysqlx.Datatypes.Scalar, with the fields this core reads; absent optional fields are None. */
  datatype Scalar = Scalar(stype: ScalarType, vBool: Option<bool>, vString: Option<string>)

  /**
   * Mysqlx.Datatypes.Any. `elements` is what GetArray().GetValue() yields:
   * empty when the array field is absent.
   */
  datatype Any = Any(atype: AnyType, scalar: Option<Scalar>, elements: seq<Any>)

  /** One entry of a Capabilities message; a nil value is None. */
  datatype Capability = Capability(name: string, value: Option<Any>)

  /** What the capability table can hold (AddScalarString, AddScalarBool, AddArrayString). */
  datatype CapValue = StringValue(s: string) | BoolValue(b: bool) | StringArray(ss: seq<string>)

  datatype Entry = Entry(name: string, value: CapValue)

  /** What getCapabilities does with one value: add it, skip it, or crash on a nil pointer. */
  datatype Shape = Add(value: CapValue) | Skip | NilDereference

  /** isScalar: a nil value is never a scalar. */
  predicate IsScalar(v: Option<Any>): (b: bool)
    ensures b ==> v.Some?
  {
    v.Some? && v.value.atype == AnyScalar
  }

  /** isScalarString and isScalarBool dereference value.Scalar once the value is a scalar. */
  predicate ScalarPresent(v: Option<Any>)
  {
    IsScalar(v) ==> v.value.scalar.Some?
  }

  /** isScalarString: only a scalar can be a string scalar. */
  predicate IsScalarString(v: Option<Any>): (b: bool)
    requires ScalarPresent(v)
    ensures b ==> IsScalar(v)
  {
    IsScalar(v) && v.value.scalar.value.stype == VString
  }

  /** isScalarBool: only a scalar can be a bool scalar, and never one that is also a string scalar. */
  predicate IsScalarBool(v: Option<Any>): (b: bool)
    requires ScalarPresent(v)
    ensures b ==> IsScalar(v) && !IsScalarString(v)
  {
    IsScalar(v) && v.value.scalar.value.stype == VBool
  }

  /** scalarString: "" for anything but a string scalar; dereferences VString otherwise. */
  function ScalarString(v: Option<Any>): (s: string)
    requires ScalarPresent(v) && (IsScalarString(v) ==> v.value.scalar.value.vString.Some?)
    ensures IsScalarString(v) ==> Some(s) == StringPayload(v.value)
    ensures !IsScalarString(v) ==> s == ""
  {
    if !IsScalarString(v) then "" else v.value.scalar.value.vString.value
  }

  /** scalarBool: false for anything but a bool scalar; dereferences VBool otherwise. */
  function ScalarBool(v: Option<Any>): (b: bool)
    requires ScalarPresent(v) && (IsScalarBool(v) ==> v.value.scalar.value.vBool.Some?)
    ensures IsScalarBool(v) ==> Some(b) == BoolPayload(v.value)
    ensures !IsScalarBool(v) ==> !b
  {
    if !IsScalarBool(v) then false else v.value.scalar.value.vBool.value
  }

  /** GetScalar().GetType(): the default V_SINT when the scalar field is absent. */
  function ScalarTypeOf(e: Any): ScalarType
  {
    if e.scalar.Some? then e.scalar.value.stype else VSint
  }

  /** The VString text of a value, when it has a scalar carrying one. */
  function StringPayload(e: Any): Option<string>
  {
    if e.scalar.Some? then e.scalar.value.vString else None
  }

  /** The VBool flag of a value, when it has a scalar carrying one. */
  function BoolPayload(e: Any): Option<bool>
  {
    if e.scalar.Some? then e.scalar.value.vBool else None
  }

  predicate IsStringElement(e: Any)
  {
    e.atype == AnyScalar && ScalarTypeOf(e) == VString
  }

  /**
   * The loop of isArrayString: false at the first element that is not a string
   * scalar, so it holds exactly when every element is one.
   */
  predicate AllStringElements(es: seq<Any>): (b: bool)
    ensures b <==> forall i :: 0 <= i < |es| ==> IsStringElement(es[i])
  {
    es == [] || (IsStringElement(es[0]) && AllStringElements(es[1..]))
  }

  /** isArrayString holds exactly of a non-nil ARRAY whose every element is a V_STRING scalar. */
  predicate IsArrayString(v: Option<Any>): (b: bool)
    ensures b <==> (v.Some? && v.value.atype == AnyArray &&
                    forall i :: 0 <= i < |v.value.elements| ==> IsStringElement(v.value.elements[i]))
  {
    v.Some? && v.value.atype == AnyArray && AllStringElements(v.value.elements)
  }

  /** scalarString of every element dereferences its VString. */
  predicate StringsPresent(es: seq<Any>)
  {
    forall i :: 0 <= i < |es| ==> IsStringElement(es[i]) ==> es[i].scalar.value.vString.Some?
  }

  /** The strings arrayString collects, one per element, in order. */
  function StringsOf(es: seq<Any>): (ss: seq<string>)
    requires AllStringElements(es) && StringsPresent(es)
    ensures |ss| == |es|
    ensures forall i :: 0 <= i < |es| ==> StringPayload(es[i]) == Some(ss[i])
  {
    if es == [] then []
    else
      assert StringsPresent(es[1..]) by {
        forall i | 0 <= i < |es[1..]| ensures IsStringElement(es[1..][i]) ==> es[1..][i].scalar.value.vString.Some? {
          assert es[1..][i] == es[i + 1];
        }
      }
      [ScalarString(Some(es[0]))] + StringsOf(es[1..])
  }

  /** arrayString: nil unless isArrayString holds, else the element strings in order. */
  method ArrayString(v: Option<Any>) returns (r: Option<seq<string>>)
    requires IsArrayString(v) ==> StringsPresent(v.value.elements)
    ensures r.Some? <==> IsArrayString(v)
    ensures r.Some? ==> r.value == StringsOf(v.value.elements)
  {
    if !IsArrayString(v) {
      return None;
    }
    var es := v.value.elements;
    var values: seq<string> := [];
    for i := 0 to |es|
      invariant |values| == i
      invariant forall j :: 0 <= j < i ==> StringPayload(es[j]) == Some(values[j])
    {
      values := values + [ScalarString(Some(es[i]))];
    }
    return Some(values);
  }

  /** Values getCapabilities adds to the table. */
  ghost predicate Supported(v: Option<Any>)
  {
    v.Some? &&
    ((v.value.atype == AnyScalar && v.value.scalar.Some? &&
      ((v.value.scalar.value.stype == VString && v.value.scalar.value.vString.Some?) ||
       (v.value.scalar.value.stype == VBool && v.value.scalar.value.vBool.Some?))) ||
     (v.value.atype == AnyArray &&
      forall i :: 0 <= i < |v.value.elements| ==>
        IsStringElement(v.value.elements[i]) && v.value.elements[i].scalar.value.vString.Some?))
  }

  /** Values on which getCapabilities dereferences a nil pointer and panics. */
  ghost predicate Crashes(v: Option<Any>)
  {
    v.None? ||
    (v.value.atype == AnyScalar && v.value.scalar.None?) ||
    (v.value.atype == AnyScalar && v.value.scalar.value.stype == VString && v.value.scalar.value.vString.None?) ||
    (v.value.atype == AnyScalar && v.value.scalar.value.stype == VBool && v.value.scalar.value.vBool.None?) ||
    (v.value.atype != AnyScalar && v.value.scalar.None? && !IsArrayString(v)) ||
    (IsArrayString(v) && !StringsPresent(v.value.elements))
  }

  /**
   * The body of getCapabilities' classification loop for one value:
   * scalar string, scalar bool, array of strings, anything else skipped,
   * with Go's nil-pointer panics where the code dereferences absent fields.
   */
  function Classify(v: Option<Any>): (r: Shape)
    ensures r.Add? <==> Supported(v)
    ensures r == NilDereference <==> Crashes(v)
    ensures r.Add? && r.value.StringValue? ==> IsScalar(v) && StringPayload(v.value) == Some(r.value.s)
    ensures r.Add? && r.value.BoolValue? ==> IsScalar(v) && BoolPayload(v.value) == Some(r.value.b)
    ensures r.Add? && r.value.StringArray? ==>
      v.Some? && v.value.atype == AnyArray && |r.value.ss| == |v.value.elements| &&
      forall i :: 0 <= i < |r.value.ss| ==> StringPayload(v.value.elements[i]) == Some(r.value.ss[i])
  {
    if IsScalar(v) then
      if v.value.scalar.None? then NilDereference
      else if IsScalarString(v) then
        if v.value.scalar.value.vString.None? then NilDereference else Add(StringValue(ScalarString(v)))
      else if IsScalarBool(v) then
        if v.value.scalar.value.vBool.None? then NilDereference else Add(BoolValue(ScalarBool(v)))
      else Skip
    else if IsArrayString(v) then
      if !StringsPresent(v.value.elements) then NilDereference
      else Add(StringArray(StringsOf(v.value.elements)))
    else if v.None? || v.value.scalar.None? then NilDereference
    else Skip
  }

  /** What the classification loop leaves: the entries added, in order, and whether it panicked. */
  datatype Absorbed = Absorbed(entries: seq<Entry>, panicked: bool)

  /** The classification loop over a prefix of the capability list; it stops at the first panic. */
  function Absorb(caps: seq<Capability>): (r: Absorbed)
    ensures !r.panicked <==> forall i :: 0 <= i < |caps| ==> Classify(caps[i].value) != NilDereference
    ensures |r.entries| <= |caps|
  {
    if caps == [] then Absorbed([], false)
    else
      var a := Absorb(caps[..|caps| - 1]);
      if a.panicked then a
      else match Classify(caps[|caps| - 1].value)
        case NilDereference => Absorbed(a.entries, true)
        case Skip => a
        case Add(x) => Absorbed(a.entries + [Entry(caps[|caps| - 1].name, x)], false)
  }

  /** Once the loop has panicked, later capabilities change nothing. */
  lemma {:induction false} AbsorbPanicSticks(caps: seq<Capability>, i: nat)
    requires i <= |caps| && Absorb(caps[..i]).panicked
    ensures Absorb(caps) == Absorb(caps[..i])
    decreases |caps|
  {
    if i < |caps| {
      var init := caps[..|caps| - 1];
      assert init[..i] == caps[..i];
      AbsorbPanicSticks(init, i);
    } else {
      assert caps[..i] == caps;
    }
  }

  /** Without a panic, the values that classify as supported are added in order and nothing else is. */
  lemma {:induction false} AbsorbAddsSupported(caps: seq<Capability>)
    requires forall i :: 0 <= i < |caps| ==> !Crashes(caps[i].value)
    ensures Absorb(caps).entries == Added(caps)
  {
    if caps != [] {
      AbsorbAddsSupported(caps[..|caps| - 1]);
    }
  }

  /** The entries for the supported values, in order. */
  function Added(caps: seq<Capability>): seq<Entry>
  {
    if caps == [] then []
    else
      var c := caps[|caps| - 1];
      Added(caps[..|caps| - 1]) + (if Classify(c.value).Add? then [Entry(c.name, Classify(c.value).value)] else [])
  }

  /** The value setScalarBoolCapability sends: a SCALAR Any holding a V_BOOL scalar. */
  function BoolAny(b: bool): (a: Any)
    ensures ScalarPresent(Some(a)) && IsScalarBool(Some(a)) && BoolPayload(a) == Some(b)
  {
    Any(AnyScalar, Some(Scalar(VBool, Some(b), None)), [])
  }

  /** What setScalarBoolCapability sends is what getCapabilities would read back as that bool. */
  lemma BoolAnyClassifies(b: bool)
    ensures Classify(Some(BoolAny(b))) == Add(BoolValue(b))
  {
  }
}
