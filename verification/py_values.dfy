/** The Python values that provider payloads carry, with the three Python
    operations the transformers apply to them: truth testing, `dict.get` with
    a default, the `or` operator, and `str()`. */
module PyValues {
  import opened Wrappers
  import opened Text

  /** A payload field. `VTime` is a `datetime` kept opaque (its text is what
      `str()` prints); `VMap` is a `dict`; `VObj` is any other object, given
      by its attributes. */
  datatype Value =
    | VNone
    | VBool(b: bool)
    | VInt(i: int)
    | VStr(s: string)
    | VTime(stamp: string)
    | VMap(entries: map<string, Value>)
    | VObj(attrs: map<string, Value>)

  /** Python truth testing: `None`, `False`, `0`, `""` and `{}` are false;
      datetimes and plain objects are true. */
  predicate Truthy(v: Value) {
    match v
    case VNone => false
    case VBool(b) => b
    case VInt(i) => i != 0
    case VStr(s) => s != ""
    case VTime(_) => true
    case VMap(m) => |m| != 0
    case VObj(_) => true
  }

  /** `d.get(k, default)`: the default applies only when the key is absent,
      never when it is present with a falsy value. */
  function Get(d: map<string, Value>, k: string, default: Value): (v: Value)
    ensures k in d ==> v == d[k]
    ensures k !in d ==> v == default
  {
    if k in d then d[k] else default
  }

  /** `a or b`: `a` when it is truthy, otherwise `b`. */
  function Or(a: Value, b: Value): (v: Value)
    ensures Truthy(a) ==> v == a
    ensures !Truthy(a) ==> v == b
  {
    if Truthy(a) then a else b
  }

  /** Values whose `str()` rendering the model knows: everything but
      mappings and arbitrary objects. */
  predicate Renderable(v: Value) {
    !v.VMap? && !v.VObj?
  }

  /** `str(v)`. */
  function PyStr(v: Value): string
    requires Renderable(v)
  {
    match v
    case VNone => "None"
    case VBool(b) => if b then "True" else "False"
    case VInt(i) => IntToDecimal(i)
    case VStr(s) => s
    case VTime(t) => t
  }

  /** `str()` of a string is the string itself, so rendering twice changes
      nothing; an integer id renders to a decimal that parses back to it. */
  lemma {:induction false} PyStrProperties(v: Value)
    requires Renderable(v)
    ensures PyStr(VStr(PyStr(v))) == PyStr(v)
    ensures v.VInt? ==> ParseInt(PyStr(v)) == Some(v.i)
    ensures v.VStr? ==> PyStr(v) == v.s
  {
    if v.VInt? {
      ParseIntRoundTrip(v.i);
    }
  }

  /** The `data` argument of the transformers: nothing, an SDK object (or
      `SimpleNamespace`) given by its attributes, a `dict`, or a value of any
      other type, of which only its truth value matters. */
  datatype Payload =
    | PNone
    | PObject(attrs: map<string, Value>)
    | PDict(entries: map<string, Value>)
    | POther(truthy: bool)

  /** `not data`: `None`, an empty dict, or a false value of another type.
      Objects are always true. */
  predicate Falsy(p: Payload) {
    match p
    case PNone => true
    case PObject(_) => false
    case PDict(d) => |d| == 0
    case POther(t) => !t
  }

  /** The `id` of a payload, where present, has a known `str()` rendering. */
  predicate IdRenderable(d: map<string, Value>) {
    "id" in d ==> Renderable(d["id"])
  }

  /** The id renders wherever a transformer reads it. */
  predicate PayloadIdRenderable(data: Payload) {
    match data
    case PObject(a) => IdRenderable(a)
    case PDict(d) => IdRenderable(d)
    case _ => true
  }

  /** The first of `names` that `attrs` lacks: attribute reads in that order
      raise `AttributeError` at the first absent one. */
  function FirstMissing(attrs: map<string, Value>, names: seq<string>): (m: Option<string>)
    ensures m.None? <==> forall i :: 0 <= i < |names| ==> names[i] in attrs
    ensures m.Some? ==> exists k :: 0 <= k < |names| && names[k] == m.value
                          && m.value !in attrs
                          && forall i :: 0 <= i < k ==> names[i] in attrs
    decreases |names|
  {
    if |names| == 0 then None
    else if names[0] !in attrs then Some(names[0])
    else
      var rest := FirstMissing(attrs, names[1..]);
      if rest.Some? then
        var k :| 0 <= k < |names[1..]| && names[1..][k] == rest.value
                 && rest.value !in attrs
                 && forall i :: 0 <= i < k ==> names[1..][i] in attrs;
        assert names[k + 1] == rest.value;
        assert forall i :: 0 <= i < k + 1 ==> names[i] in attrs by {
          forall i | 0 <= i < k + 1 ensures names[i] in attrs {
            if i > 0 { assert names[i] == names[1..][i - 1]; }
          }
        }
        rest
      else
        assert forall i :: 1 <= i < |names| ==> names[i] == names[1..][i - 1];
        rest
  }

  /** `s * n` for a string and a non-negative count. */
  function Repeat(s: string, n: nat): (r: string)
    ensures |r| == |s| * n
    ensures n > 0 ==> r[..|s|] == s
    ensures forall i :: 0 <= i < |r| - |s| ==> r[i + |s|] == r[i]
  {
    if n == 0 then ""
    else
      var rest := Repeat(s, n - 1);
      assert forall i :: 0 <= i < |rest| ==> (s + rest)[i + |s|] == (s + rest)[i] by {
        forall i | 0 <= i < |rest|
          ensures (s + rest)[i + |s|] == (s + rest)[i]
        {
          if i < |s| {
            assert rest[..|s|] == s;
            assert rest[i] == rest[..|s|][i];
          } else {
            assert rest[i] == rest[(i - |s|) + |s|];
          }
        }
      }
      s + rest
  }
}
