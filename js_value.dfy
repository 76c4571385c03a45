/** JavaScript values as the modelled code sees them: JSON bodies from the
    server, query parameters, stored strings and Date objects, with the
    language rules the code relies on (truthiness, `||`, property reads,
    String.prototype.slice). */
module JsValue {

  datatype Option<T> = None | Some(value: T)

  datatype Result<T, E> = Ok(value: T) | Err(error: E)

  /** The exceptions the modelled code can raise. */
  datatype Exception = TypeError | RangeError

  /** A JavaScript value. Numbers are integers here (see README). A `Date`
      carries its time value, `None` for an invalid date. */
  datatype Value =
    | Undefined
    | Null
    | Bool(b: bool)
    | Num(n: int)
    | Str(s: string)
    | Arr(elems: seq<Value>)
    | Obj(props: map<string, Value>)
    | Date(time: Option<int>)

  /** Reading a property of these throws a TypeError. */
  predicate IsNullish(v: Value) {
    v.Undefined? || v.Null?
  }

  /** ToBoolean: what `if (v)`, `!v`, `&&` and `||` test. The falsy values
      are exactly undefined, null, false, 0 and the empty string. */
  predicate Truthy(v: Value)
    ensures !Truthy(v) <==> v in {Undefined, Null, Bool(false), Num(0), Str("")}
  {
    match v
    case Undefined => false
    case Null => false
    case Bool(b) => b
    case Num(n) => n != 0
    case Str(s) => s != ""
    case _ => true
  }

  /** `a || b`: truthy when either operand is, and then the first truthy one. */
  function Or(a: Value, b: Value): (r: Value)
    ensures Truthy(r) <==> Truthy(a) || Truthy(b)
    ensures Truthy(a) ==> r == a
    ensures !Truthy(a) ==> r == b
  {
    if Truthy(a) then a else b
  }

  /** `a && b`: truthy when both operands are; a falsy left operand is the
      result itself. */
  function And(a: Value, b: Value): (r: Value)
    ensures Truthy(r) <==> Truthy(a) && Truthy(b)
    ensures !Truthy(a) ==> r == a
    ensures Truthy(a) ==> r == b
  {
    if Truthy(a) then b else a
  }

  /** `vs[0] || vs[1] || ... || vs[n-1]`, grouped to the left as JavaScript does. */
  function OrChain(vs: seq<Value>): Value
    requires |vs| > 0
  {
    if |vs| == 1 then vs[0] else Or(OrChain(vs[..|vs| - 1]), vs[|vs| - 1])
  }

  /** An `||` chain yields its first truthy operand. */
  lemma {:induction false} OrChainFirstTruthy(vs: seq<Value>, k: nat)
    requires k < |vs| && Truthy(vs[k])
    requires forall j :: 0 <= j < k ==> !Truthy(vs[j])
    ensures OrChain(vs) == vs[k]
  {
    if |vs| > 1 {
      if k < |vs| - 1 {
        OrChainFirstTruthy(vs[..|vs| - 1], k);
      } else {
        OrChainNoneTruthy(vs[..|vs| - 1]);
      }
    }
  }

  /** An `||` chain with no truthy operand yields its last operand, not a
      fixed default. */
  lemma {:induction false} OrChainNoneTruthy(vs: seq<Value>)
    requires |vs| > 0
    requires forall j :: 0 <= j < |vs| ==> !Truthy(vs[j])
    ensures OrChain(vs) == vs[|vs| - 1]
    ensures !Truthy(OrChain(vs))
  {
    if |vs| > 1 {
      OrChainNoneTruthy(vs[..|vs| - 1]);
    }
  }

  /** `v.key` for an own data property of a plain object. Every other
      non-nullish value has none of the keys the modelled code reads, so the
      read gives `undefined`. */
  function Get(v: Value, key: string): (r: Value)
    requires !IsNullish(v)
    ensures r != Undefined ==> v.Obj? && key in v.props && r == v.props[key]
    ensures v.Obj? && key in v.props ==> r == v.props[key]
  {
    if v.Obj? && key in v.props then v.props[key] else Undefined
  }

  /** `s.slice(start, end)` for non-negative arguments: both ends are clamped
      to the length, and an empty range gives the empty string. */
  function Slice(s: string, start: nat, end: nat): (r: string)
    ensures |r| <= |s| && |r| <= end
    ensures start <= end <= |s| ==> r == s[start..end]
    ensures start <= |s| < end ==> r == s[start..]
    ensures end <= start || |s| <= start ==> r == ""
  {
    var from := if start < |s| then start else |s|;
    var to := if end < |s| then end else |s|;
    if from < to then s[from..to] else ""
  }
}
