/** Dynamically typed prop values and the JavaScript truthiness rules the
    components rely on. */
module Values {

  datatype Option<T> = None | Some(value: T)

  /** Opaque identity of a JavaScript function value (an event callback or a
      render function referenced from a placeholder). */
  type FnId = nat

  /** A prop value. A nested component is referenced by its identity token;
      `VUndefined` is what reading a missing key yields. */
  datatype Value =
    | VStr(s: string)
    | VNum(n: int)
    | VBool(b: bool)
    | VFn(f: FnId)
    | VBlock(uid: string)
    | VNull
    | VUndefined

  type Props = map<string, Value>

  /** `props[key]`, which is `undefined` for a missing key. */
  function Get(props: Props, key: string): (v: Value)
    ensures key !in props ==> v == VUndefined
    ensures key in props ==> v == props[key]
  {
    if key in props then props[key] else VUndefined
  }

  /** JavaScript truthiness: empty string, zero, false, null and undefined are
      falsy; functions and objects are truthy. */
  predicate Truthy(v: Value) {
    match v
    case VStr(s) => s != ""
    case VNum(n) => n != 0
    case VBool(b) => b
    case VFn(_) => true
    case VBlock(_) => true
    case VNull => false
    case VUndefined => false
  }

  /** `a || b`: the first operand if it is truthy, otherwise the second. */
  function Or(a: Value, b: Value): (r: Value)
    ensures Truthy(a) ==> r == a
    ensures !Truthy(a) ==> r == b
  {
    if Truthy(a) then a else b
  }
}
