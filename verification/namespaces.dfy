/**
 * `BindToNamespace` (GameViewer/wwwroot/js/app.js:6-57): walk a dotted
 * namespace down from `window`, creating each missing segment as an empty
 * object, and define `objName` on the node reached, refusing to replace a
 * defined value unless `overwrite` is set.
 */
module Namespaces {
  import opened Wrappers
  import opened JsValues

  // ---------------------------------------------------------------------
  // `String(namespace).split(".")`
  // ---------------------------------------------------------------------

  /** The pieces of `s` between its dots; an empty string gives one empty
      piece, as `"".split(".")` does. */
  function Split(s: string): (parts: seq<string>)
    ensures |parts| >= 1
    ensures forall i :: 0 <= i < |parts| ==> '.' !in parts[i]
    decreases |s|
  {
    if s == [] then [""]
    else
      var rest := Split(s[1..]);
      if s[0] == '.' then [""] + rest
      else [[s[0]] + rest[0]] + rest[1..]
  }

  /** The pieces glued back together with dots. */
  function Join(parts: seq<string>): string
    requires |parts| >= 1
    decreases |parts|
  {
    if |parts| == 1 then parts[0] else parts[0] + "." + Join(parts[1..])
  }

  /** Splitting loses nothing: the dots come back exactly where they were. */
  lemma {:induction false} JoinSplit(s: string)
    ensures Join(Split(s)) == s
    decreases |s|
  {
    if s != [] {
      var rest := Split(s[1..]);
      JoinSplit(s[1..]);
      if s[0] == '.' {
        assert Join(Split(s)) == "" + "." + Join(rest);
      } else if |rest| == 1 {
        assert Join(Split(s)) == [s[0]] + rest[0];
      } else {
        assert Join(rest) == rest[0] + "." + Join(rest[1..]);
        assert Join(Split(s)) == ([s[0]] + rest[0]) + "." + Join(rest[1..]);
      }
    }
  }

  lemma {:induction false} SplitWithoutDots(a: string)
    requires '.' !in a
    ensures Split(a) == [a]
    decreases |a|
  {
    if a != [] {
      assert '.' !in a[1..] by {
        forall i | 0 <= i < |a[1..]| ensures a[1..][i] != '.' {
          assert a[1..][i] == a[i + 1];
        }
      }
      SplitWithoutDots(a[1..]);
      assert [a[0]] + a[1..] == a;
    }
  }

  lemma {:induction false} SplitAtFirstDot(a: string, b: string)
    requires '.' !in a
    ensures Split(a + "." + b) == [a] + Split(b)
    decreases |a|
  {
    if a == [] {
      assert a + "." + b == ['.'] + b;
      assert (a + "." + b)[1..] == b;
    } else {
      assert '.' !in a[1..] by {
        forall i | 0 <= i < |a[1..]| ensures a[1..][i] != '.' {
          assert a[1..][i] == a[i + 1];
        }
      }
      assert (a + "." + b)[1..] == a[1..] + "." + b;
      SplitAtFirstDot(a[1..], b);
      assert [a[0]] + a[1..] == a;
    }
  }

  /** Dot-free segments survive a join and a split unchanged. */
  lemma {:induction false} SplitJoin(parts: seq<string>)
    requires |parts| >= 1
    requires forall i :: 0 <= i < |parts| ==> '.' !in parts[i]
    ensures Split(Join(parts)) == parts
    decreases |parts|
  {
    if |parts| == 1 {
      SplitWithoutDots(parts[0]);
    } else {
      SplitJoin(parts[1..]);
      SplitAtFirstDot(parts[0], Join(parts[1..]));
      assert [parts[0]] + parts[1..] == parts;
    }
  }

  // ---------------------------------------------------------------------
  // The binding itself, as a function of the tree
  // ---------------------------------------------------------------------

  /** What `BindToNamespace` throws: the unbound `exceptions` helper after a
      failed argument check (a ReferenceError), a property read on null or a
      `defineProperty` on a primitive (a TypeError), and the explicit refusal
      to replace a defined value. */
  datatype BindError = ReferenceError | TypeError | OverwriteRefused

  /** The tree after a binding and how the binding ended. */
  datatype Bound = Bound(tree: JsValue, outcome: Outcome<BindError>)

  /** Binding `key` to `x` below `node` along `path`: a segment whose value is
      undefined becomes a fresh empty object, an existing one is entered;
      a node that is not an object throws a TypeError. */
  function BindAt(node: JsValue, path: seq<string>, key: string, x: JsValue, overwrite: bool): Bound
    decreases |path|
  {
    if !IsObject(node) then Bound(node, Fail(TypeError))
    else if path == [] then
      if !overwrite && Get(node, key) != Undefined then Bound(node, Fail(OverwriteRefused))
      else Bound(Define(node, key, x), Pass)
    else
      var child := Get(node, path[0]);
      var next := if Is(child, Undefined) then EmptyObject else child;
      var r := BindAt(next, path[1..], key, x, overwrite);
      Bound(Define(node, path[0], r.tree), r.outcome)
  }

  /** The whole call on the tree rooted at `window`, argument checks first;
      an absent `overwrite` means false. */
  function BindToNamespaceSpec(window: JsValue, namespace: JsValue, objName: JsValue, obj: JsValue, overwrite: JsValue): Bound {
    var ow := if overwrite.Undefined? then Boolean(false) else overwrite;
    if !Is(namespace, Str("")) || !Is(objName, Str("")) || (!Is(ow, Boolean(false)) && !Is(ow, Undefined)) then
      Bound(window, Fail(ReferenceError))
    else
      BindAt(window, Split(namespace.s), objName.s, obj, ow.b)
  }

  /** A successful binding leaves `x` at the end of the path. */
  lemma {:induction false} BindStoresValue(node: JsValue, path: seq<string>, key: string, x: JsValue, overwrite: bool)
    requires BindAt(node, path, key, x, overwrite).outcome == Pass
    ensures Lookup(BindAt(node, path, key, x, overwrite).tree, path + [key]) == x
    decreases |path|
  {
    if path != [] {
      var child := Get(node, path[0]);
      var next := if Is(child, Undefined) then EmptyObject else child;
      BindStoresValue(next, path[1..], key, x, overwrite);
      assert (path + [key])[1..] == path[1..] + [key];
    }
  }

  /** A successful binding changes no other key of the node it binds on
      (a node created on the way had no keys). */
  lemma {:induction false} BindKeepsOtherKeys(node: JsValue, path: seq<string>, key: string, x: JsValue, overwrite: bool, other: string)
    requires BindAt(node, path, key, x, overwrite).outcome == Pass
    requires other != key
    ensures Get(Lookup(BindAt(node, path, key, x, overwrite).tree, path), other) == Get(Lookup(node, path), other)
    decreases |path|
  {
    if path != [] {
      var child := Get(node, path[0]);
      var next := if Is(child, Undefined) then EmptyObject else child;
      BindKeepsOtherKeys(next, path[1..], key, x, overwrite, other);
      LookupBelowNothing(path[1..]);
    }
  }

  /** `q` leaves `p` before either ends: the two lead to disjoint subtrees. */
  predicate Diverges(q: seq<string>, p: seq<string>)
    decreases |q|
  {
    q != [] && p != [] && (q[0] != p[0] || Diverges(q[1..], p[1..]))
  }

  /** Whatever its outcome, a binding changes nothing off its own path. */
  lemma {:induction false} BindFrame(node: JsValue, path: seq<string>, key: string, x: JsValue, overwrite: bool, q: seq<string>)
    requires Diverges(q, path + [key])
    ensures Lookup(BindAt(node, path, key, x, overwrite).tree, q) == Lookup(node, q)
    decreases |path|
  {
    if IsObject(node) && path != [] {
      var child := Get(node, path[0]);
      var next := if Is(child, Undefined) then EmptyObject else child;
      if q[0] == path[0] {
        assert (path + [key])[1..] == path[1..] + [key];
        BindFrame(next, path[1..], key, x, overwrite, q[1..]);
        LookupBelowNothing(q[1..]);
      }
    }
  }

  /** Below a node just created every binding succeeds: a fresh `{}` has no
      own properties.  (In a browser it inherits `Object.prototype`, so a
      leaf named like `toString` is refused there; see `JsValues.Get`.) */
  lemma {:induction false} FreshPathSucceeds(path: seq<string>, key: string, x: JsValue, overwrite: bool)
    ensures BindAt(EmptyObject, path, key, x, overwrite).outcome == Pass
    decreases |path|
  {
    if path != [] {
      FreshPathSucceeds(path[1..], key, x, overwrite);
    }
  }

  /** With own properties only, a binding that throws leaves the tree as it
      was: a throw can only come from a node that already existed, before
      anything was created.  An inherited leaf name below a created node
      would throw after the creation and keep the created nodes. */
  lemma {:induction false} BindFailureChangesNothing(node: JsValue, path: seq<string>, key: string, x: JsValue, overwrite: bool)
    requires BindAt(node, path, key, x, overwrite).outcome.Fail?
    ensures BindAt(node, path, key, x, overwrite).tree == node
    decreases |path|
  {
    if IsObject(node) && path != [] {
      var child := Get(node, path[0]);
      if Is(child, Undefined) {
        FreshPathSucceeds(path[1..], key, x, overwrite);
      } else {
        BindFailureChangesNothing(child, path[1..], key, x, overwrite);
        DefineSame(node, path[0]);
      }
    }
  }

  lemma LookupPrefixStep(node: JsValue, path: seq<string>, i: nat)
    requires 1 <= i <= |path|
    ensures Lookup(node, path[..i]) == Lookup(Get(node, path[0]), path[1..][..i - 1])
  {
    assert path[..i][1..] == path[1..][..i - 1];
  }

  /** In this model, where primitives have no properties, a TypeError is
      thrown exactly when the walk meets a value that exists but is not an
      object (null, a boolean, a number or a string). */
  lemma {:induction false} TypeErrorIff(node: JsValue, path: seq<string>, key: string, x: JsValue, overwrite: bool)
    requires node != Undefined
    ensures BindAt(node, path, key, x, overwrite).outcome == Fail(TypeError)
        <==> exists i :: 0 <= i <= |path| && Stuck(Lookup(node, path[..i]))
    decreases |path|
  {
    var lhs := BindAt(node, path, key, x, overwrite).outcome == Fail(TypeError);
    if !IsObject(node) {
      assert Stuck(Lookup(node, path[..0]));
    } else if path == [] {
      forall i | 0 <= i <= |path| ensures !Stuck(Lookup(node, path[..i])) {
        assert path[..i] == [];
      }
    } else {
      var child := Get(node, path[0]);
      if child == Undefined {
        // a fresh empty object is entered: nothing below it is stuck
        FreshPathSucceeds(path[1..], key, x, overwrite);
        forall i | 0 <= i <= |path| ensures !Stuck(Lookup(node, path[..i])) {
          if i > 0 {
            LookupPrefixStep(node, path, i);
            LookupBelowNothing(path[1..][..i - 1]);
          }
        }
      } else {
        TypeErrorIff(child, path[1..], key, x, overwrite);
        if lhs {
          var j :| 0 <= j <= |path[1..]| && Stuck(Lookup(child, path[1..][..j]));
          LookupPrefixStep(node, path, j + 1);
          assert Stuck(Lookup(node, path[..j + 1]));
        } else {
          forall i | 0 <= i <= |path| ensures !Stuck(Lookup(node, path[..i])) {
            if i > 0 {
              LookupPrefixStep(node, path, i);
            }
          }
        }
      }
    }
  }

  /** Without `overwrite` a binding is refused exactly when the whole path
      already exists as objects and the leaf holds a value other than
      undefined; with `overwrite` it never is.  Only own properties are
      seen, so a leaf inherited from `Object.prototype` does not refuse. */
  lemma {:induction false} OverwriteRefusedIff(node: JsValue, path: seq<string>, key: string, x: JsValue, overwrite: bool)
    ensures BindAt(node, path, key, x, overwrite).outcome == Fail(OverwriteRefused)
        <==> ObjectPath(node, path) && !overwrite && Get(Lookup(node, path), key) != Undefined
    decreases |path|
  {
    if IsObject(node) && path != [] {
      var child := Get(node, path[0]);
      if Is(child, Undefined) {
        FreshPathSucceeds(path[1..], key, x, overwrite);
      } else {
        OverwriteRefusedIff(child, path[1..], key, x, overwrite);
      }
    }
  }

  /** A successful binding leaves the whole path standing as objects. */
  lemma {:induction false} BindMakesPath(node: JsValue, path: seq<string>, key: string, x: JsValue, overwrite: bool)
    requires BindAt(node, path, key, x, overwrite).outcome == Pass
    ensures ObjectPath(BindAt(node, path, key, x, overwrite).tree, path)
    decreases |path|
  {
    if path != [] {
      var child := Get(node, path[0]);
      var next := if Is(child, Undefined) then EmptyObject else child;
      BindMakesPath(next, path[1..], key, x, overwrite);
    }
  }

  /** Binding a defined value twice without `overwrite`: the second call is
      refused and leaves the tree as the first call left it. */
  lemma RebindRefused(node: JsValue, path: seq<string>, key: string, x: JsValue, overwrite: bool, y: JsValue)
    requires BindAt(node, path, key, x, overwrite).outcome == Pass
    requires x != Undefined
    ensures var t := BindAt(node, path, key, x, overwrite).tree;
      BindAt(t, path, key, y, false) == Bound(t, Fail(OverwriteRefused))
  {
    var t := BindAt(node, path, key, x, overwrite).tree;
    BindMakesPath(node, path, key, x, overwrite);
    BindStoresValue(node, path, key, x, overwrite);
    LookupSnoc(t, path, key);
    OverwriteRefusedIff(t, path, key, y, false);
    BindFailureChangesNothing(t, path, key, y, false);
  }

  /** The binding itself never throws a ReferenceError. */
  lemma {:induction false} BindAtNoReferenceError(node: JsValue, path: seq<string>, key: string, x: JsValue, overwrite: bool)
    ensures BindAt(node, path, key, x, overwrite).outcome != Fail(ReferenceError)
    decreases |path|
  {
    if IsObject(node) && path != [] {
      var child := Get(node, path[0]);
      var next := if Is(child, Undefined) then EmptyObject else child;
      BindAtNoReferenceError(next, path[1..], key, x, overwrite);
    }
  }

  /** The argument checks come first: a ReferenceError is thrown exactly when
      one fails, and then the tree is untouched. */
  lemma ArgumentChecks(window: JsValue, namespace: JsValue, objName: JsValue, obj: JsValue, overwrite: JsValue)
    ensures var b := BindToNamespaceSpec(window, namespace, objName, obj, overwrite);
      (b.outcome == Fail(ReferenceError) <==> !namespace.Str? || !objName.Str? || !(overwrite.Boolean? || overwrite.Undefined?))
      && (b.outcome == Fail(ReferenceError) ==> b.tree == window)
  {
    if namespace.Str? && objName.Str? && (overwrite.Boolean? || overwrite.Undefined?) {
      var ow := if overwrite.Undefined? then false else overwrite.b;
      BindAtNoReferenceError(window, Split(namespace.s), objName.s, obj, ow);
    }
  }

  // ---------------------------------------------------------------------
  // The page: `window` and the imperative walk
  // ---------------------------------------------------------------------

  /** After `next` is written under `name` below the node at `p`, the walk
      can step to it. */
  lemma DescendReaches(g: JsValue, p: seq<string>, name: string, next: JsValue)
    requires Present(g, p) && IsObject(Lookup(g, p))
    ensures Present(ReplaceAt(g, p, Define(Lookup(g, p), name, next)), p + [name])
    ensures Lookup(ReplaceAt(g, p, Define(Lookup(g, p), name, next)), p + [name]) == next
  {
    var d := Define(Lookup(g, p), name, next);
    var g' := ReplaceAt(g, p, d);
    ReplaceAtReaches(g, p, d);
    PresentSnoc(g', p, name);
    LookupSnoc(g', p, name);
  }

  /** Writing `next` under `name` below the node at `p`, then replacing
      below it, is one replacement of that node. */
  lemma DescendReplaces(g: JsValue, p: seq<string>, name: string, next: JsValue, sub: JsValue)
    ensures ReplaceAt(ReplaceAt(g, p, Define(Lookup(g, p), name, next)), p + [name], sub)
         == ReplaceAt(g, p, Define(Lookup(g, p), name, sub))
  {
    var d := Define(Lookup(g, p), name, next);
    ReplaceAtNested(g, p, [name], d, sub);
    assert ReplaceAt(d, [name], sub) == Define(d, name, sub);
    DefineTwice(Lookup(g, p), name, next, sub);
  }

  class Window {
    /** The `window` object with everything bound on it so far. */
    var global: JsValue

    constructor (props: map<string, JsValue>)
      ensures global == Object(props)
    {
      global := Object(props);
    }

    /** `BindToNamespace(namespace, objName, obj, overwrite)`. */
    method BindToNamespace(namespace: JsValue, objName: JsValue, obj: JsValue, overwrite: JsValue) returns (r: Outcome<BindError>)
      requires IsObject(global)
      modifies this
      ensures Bound(global, r) == BindToNamespaceSpec(old(global), namespace, objName, obj, overwrite)
      ensures r == Fail(ReferenceError) <==> !namespace.Str? || !objName.Str? || !(overwrite.Boolean? || overwrite.Undefined?)
      ensures r.Fail? ==> global == old(global)
    {
      ArgumentChecks(global, namespace, objName, obj, overwrite);
      var ow := if overwrite.Undefined? then Boolean(false) else overwrite;  // `overwrite = false`
      if !Is(namespace, Str("")) {
        return Fail(ReferenceError);
      }
      if !Is(objName, Str("")) {
        return Fail(ReferenceError);
      }
      if !Is(ow, Boolean(false)) && !Is(ow, Undefined) {
        return Fail(ReferenceError);
      }
      var key := objName.s;
      var namespaces := Split(namespace.s);
      ghost var target := BindAt(global, namespaces, key, obj, ow.b);
      if target.outcome.Fail? {
        BindFailureChangesNothing(global, namespaces, key, obj, ow.b);
      }
      // `currentNamespace` is the node at path `current` below `window`
      var current: seq<string> := [];
      while |namespaces| > 0
        invariant Present(global, current)
        invariant var b := BindAt(Lookup(global, current), namespaces, key, obj, ow.b);
          Bound(ReplaceAt(global, current, b.tree), b.outcome) == target
        decreases |namespaces|
      {
        var node := Lookup(global, current);
        if !IsObject(node) {
          // reading a property of null, or defining one on a primitive, throws
          ReplaceAtSelf(global, current);
          return Fail(TypeError);
        }
        var name := namespaces[0];
        namespaces := namespaces[1..];
        var child := Get(node, name);
        var next := if Is(child, Undefined) then EmptyObject else child;
        ghost var rest := BindAt(next, namespaces, key, obj, ow.b);
        DescendReaches(global, current, name, next);
        DescendReplaces(global, current, name, next, rest.tree);
        if Is(child, Undefined) {
          global := ReplaceAt(global, current, Define(node, name, EmptyObject));
        } else {
          ReplaceAtSelf(global, current);
          DefineSame(node, name);
        }
        current := current + [name];
      }
      var node := Lookup(global, current);
      ReplaceAtSelf(global, current);
      if !IsObject(node) {
        return Fail(TypeError);
      }
      if !ow.b && Get(node, key) != Undefined {
        return Fail(OverwriteRefused);
      }
      global := ReplaceAt(global, current, Define(node, key, obj));
      r := Pass;
    }
  }
}
