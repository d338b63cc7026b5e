/**
 * The JavaScript values that `BindToNamespace` (GameViewer/wwwroot/js/app.js)
 * walks and stores, `typeof`, and the `DataTypes.Is` test built on it.
 */
module JsValues {

  /** A JavaScript value as far as the namespace code can tell values apart.
      Objects and functions carry their own string-keyed properties. */
  datatype JsValue =
    | Undefined
    | Null
    | Boolean(b: bool)
    | Number(n: real)
    | Str(s: string)
    | Object(props: map<string, JsValue>)
    | Function(name: string, props: map<string, JsValue>)

  /** The answers of `typeof` for these values. */
  datatype JsType = UndefinedType | ObjectType | BooleanType | NumberType | StringType | FunctionType

  function TypeOf(v: JsValue): JsType {
    match v
    case Undefined => UndefinedType
    case Null => ObjectType  // `typeof null` is "object"
    case Boolean(_) => BooleanType
    case Number(_) => NumberType
    case Str(_) => StringType
    case Object(_) => ObjectType
    case Function(_, _) => FunctionType
  }

  /** `DataTypes.Is(obj, type)` (app.js:169-171): the two values have the same
      `typeof`; the second argument, a sample value, is named `sample` here. */
  predicate Is(obj: JsValue, sample: JsValue) {
    TypeOf(obj) == TypeOf(sample)
  }

  /** Tested against a sample value, `Is` recognises exactly the values of
      that sample's kind; null counts as an object, a function does not. */
  lemma IsAgainstSamples(v: JsValue)
    ensures Is(v, Str("")) <==> v.Str?
    ensures Is(v, Boolean(false)) <==> v.Boolean?
    ensures Is(v, Undefined) <==> v.Undefined?
    ensures Is(v, Object(map[])) <==> v.Object? || v.Null?
  {
  }

  /** Objects and functions hold properties; nothing else does. */
  predicate IsObject(v: JsValue) {
    v.Object? || v.Function?
  }

  /** A value that is there but cannot hold properties. */
  predicate Stuck(v: JsValue) {
    v != Undefined && !IsObject(v)
  }

  const EmptyObject: JsValue := Object(map[])

  /** `v[key]` for an own property; anything else reads as undefined. */
  function Get(v: JsValue, key: string): JsValue {
    if IsObject(v) && key in v.props then v.props[key] else Undefined
  }

  /** `Object.defineProperty(v, key, { value: x, ... })` on an object or
      function; other values are left as they are. */
  function Define(v: JsValue, key: string, x: JsValue): JsValue {
    match v
    case Object(p) => Object(p[key := x])
    case Function(n, p) => Function(n, p[key := x])
    case _ => v
  }

  /** A second definition of the same key wins. */
  lemma DefineTwice(v: JsValue, key: string, a: JsValue, b: JsValue)
    ensures Define(Define(v, key, a), key, b) == Define(v, key, b)
  {
    match v
    case Object(m) => assert m[key := a][key := b] == m[key := b];
    case Function(n, m) => assert m[key := a][key := b] == m[key := b];
    case _ =>
  }

  /** Defining an own property as the value it already has changes nothing. */
  lemma DefineSame(v: JsValue, key: string)
    requires IsObject(v) && key in v.props
    ensures Define(v, key, Get(v, key)) == v
  {
    assert v.props[key := v.props[key]] == v.props;
  }

  /** The value reached from `v` by reading the properties of `path` in turn. */
  function Lookup(v: JsValue, path: seq<string>): JsValue
    decreases |path|
  {
    if path == [] then v else Lookup(Get(v, path[0]), path[1..])
  }

  /** `v` with the value at `path` replaced by `sub`, every object on the way
      updated in place. */
  function ReplaceAt(v: JsValue, path: seq<string>, sub: JsValue): JsValue
    decreases |path|
  {
    if path == [] then sub else Define(v, path[0], ReplaceAt(Get(v, path[0]), path[1..], sub))
  }

  /** Every step of `path` names an own property of an object. */
  predicate Present(v: JsValue, path: seq<string>)
    decreases |path|
  {
    path == [] || (IsObject(v) && path[0] in v.props && Present(v.props[path[0]], path[1..]))
  }

  /** Every node along `path`, the last included, is an existing object. */
  predicate ObjectPath(v: JsValue, path: seq<string>)
    decreases |path|
  {
    IsObject(v) && (path == [] || ObjectPath(Get(v, path[0]), path[1..]))
  }

  lemma {:induction false} LookupSnoc(v: JsValue, path: seq<string>, key: string)
    ensures Lookup(v, path + [key]) == Get(Lookup(v, path), key)
    decreases |path|
  {
    if path != [] {
      assert (path + [key])[1..] == path[1..] + [key];
      LookupSnoc(Get(v, path[0]), path[1..], key);
    }
  }

  /** Nothing lies below a missing value or a fresh empty object. */
  lemma {:induction false} LookupBelowNothing(path: seq<string>)
    ensures Lookup(Undefined, path) == Undefined
    ensures path != [] ==> Lookup(EmptyObject, path) == Undefined
    decreases |path|
  {
    if path != [] {
      LookupBelowNothing(path[1..]);
    }
  }

  /** Writing back what is already there changes nothing. */
  lemma {:induction false} ReplaceAtSelf(v: JsValue, path: seq<string>)
    requires Present(v, path)
    ensures ReplaceAt(v, path, Lookup(v, path)) == v
    decreases |path|
  {
    if path != [] {
      ReplaceAtSelf(v.props[path[0]], path[1..]);
      DefineSame(v, path[0]);
    }
  }

  /** A replacement below an earlier replacement is a replacement inside it. */
  lemma {:induction false} ReplaceAtNested(v: JsValue, p: seq<string>, q: seq<string>, a: JsValue, s: JsValue)
    ensures ReplaceAt(ReplaceAt(v, p, a), p + q, s) == ReplaceAt(v, p, ReplaceAt(a, q, s))
    decreases |p|
  {
    if p == [] {
      assert p + q == q;
    } else {
      assert (p + q)[0] == p[0] && (p + q)[1..] == p[1..] + q;
      ReplaceAtNested(Get(v, p[0]), p[1..], q, a, s);
      DefineTwice(v, p[0], ReplaceAt(Get(v, p[0]), p[1..], a), ReplaceAt(ReplaceAt(Get(v, p[0]), p[1..], a), p[1..] + q, s));
    }
  }

  /** After a replacement the path is still present and leads to the new
      value. */
  lemma {:induction false} ReplaceAtReaches(v: JsValue, path: seq<string>, a: JsValue)
    requires Present(v, path)
    ensures Present(ReplaceAt(v, path, a), path)
    ensures Lookup(ReplaceAt(v, path, a), path) == a
    decreases |path|
  {
    if path != [] {
      ReplaceAtReaches(v.props[path[0]], path[1..], a);
    }
  }

  lemma {:induction false} PresentSnoc(v: JsValue, path: seq<string>, key: string)
    requires Present(v, path) && IsObject(Lookup(v, path)) && key in Lookup(v, path).props
    ensures Present(v, path + [key])
    decreases |path|
  {
    if path != [] {
      assert (path + [key])[0] == path[0] && (path + [key])[1..] == path[1..] + [key];
      PresentSnoc(v.props[path[0]], path[1..], key);
    }
  }
}
