/** The JSON-compatible values held under `state.static`, the dotted-path
    `_.get` / `_.set` the interpreter uses on them, and the two coercions the
    source applies to values: `Number(x)` and the template-literal `${x}`. */
module Values {
  import opened Wrappers
  import opened Text

  /** A JSON value. Numbers are integers in this model. */
  datatype Value =
    | Null
    | Bool(b: bool)
    | Num(n: int)
    | Str(s: string)
    | Arr(items: seq<Value>)
    | Obj(fields: map<string, Value>)
  {
    /** Arrays and objects are the values lodash descends into (`_.isObject`). */
    predicate IsContainer() {
      Arr? || Obj?
    }
  }

  /** A dotted path such as `a.b.c`, split into its keys. */
  type Path = p: seq<string> | |p| > 0 witness [""]

  /** The keys of a dotted variable name: lodash's path parsing restricted to plain
      names without brackets, which is splitting on `.` (a leading, doubled or
      trailing dot yields an empty key, as in lodash). */
  function PathOf(name: string): (p: Path)
    ensures JoinWith(p, ".") == name
  {
    JoinSplit(name, ".");
    SplitOn(name, ".")
  }

  /** lodash's `isIndex`: a canonical non-negative decimal below 2^53 - 1. Decides
      whether `_.set` creates an array or an object for a missing container. */
  predicate IsLodashIndex(k: string) {
    IsCanonicalNumeral(k) && DecimalValue(k) < 0x1F_FFFF_FFFF_FFFF
  }

  /** A JavaScript array index: a canonical decimal below 2^32 - 1. Apart from
      `length`, any other key on an array names a plain property, which JSON
      serialisation drops. */
  predicate IsArrayIndex(k: string) {
    IsCanonicalNumeral(k) && DecimalValue(k) < 0xFFFF_FFFF
  }

  /** The keys lodash's `baseSet` refuses: it returns as soon as it meets one, after
      the levels above it have been written. */
  predicate IsGuardedKey(k: string) {
    k == "__proto__" || k == "constructor" || k == "prototype"
  }

  /** `_.get(v, keys)`: `None` is `undefined`. Arrays and strings answer `length`
      and their indices; a character of a string is a one-character string. */
  function GetIn(v: Value, keys: seq<string>): Option<Value>
    decreases |keys|
  {
    if keys == [] then Some(v)
    else match v
      case Obj(m) => if keys[0] in m then GetIn(m[keys[0]], keys[1..]) else None
      case Arr(a) =>
        if keys[0] == "length" then GetIn(Num(|a|), keys[1..])
        else if IsArrayIndex(keys[0]) && DecimalValue(keys[0]) < |a|
        then GetIn(a[DecimalValue(keys[0])], keys[1..]) else None
      case Str(s) =>
        if keys[0] == "length" then GetIn(Num(|s|), keys[1..])
        else if IsCanonicalNumeral(keys[0]) && DecimalValue(keys[0]) < |s|
        then GetIn(Str([s[DecimalValue(keys[0])]]), keys[1..]) else None
      case _ => None
  }

  /** Only an array or an object holds an array or an object: a string's length
      and characters are a number and strings. */
  lemma {:induction false} ContainerFromContainer(v: Value, keys: seq<string>)
    requires keys != [] && GetIn(v, keys).Some? && GetIn(v, keys).value.IsContainer()
    ensures v.IsContainer()
    decreases |keys|
  {
    match v
    case Str(s) =>
      if keys[0] != "length" {
        ContainerFromContainer(Str([s[DecimalValue(keys[0])]]), keys[1..]);
      }
    case _ =>
  }

  /** `_.get(state.static, path)`. */
  function GetPath(m: map<string, Value>, p: Path): Option<Value> {
    GetIn(Obj(m), p)
  }

  /** The container `_.set` walks into for the next key: the existing value when it
      is an array or an object, otherwise a fresh array when the key after it is an
      index and a fresh object when it is not. */
  function Prepare(child: Value, rest: seq<string>): (r: Value)
    ensures r.IsContainer() || rest == []
  {
    if child.IsContainer() || rest == [] then child
    else if IsLodashIndex(rest[0]) then Arr([])
    else Obj(map[])
  }

  /** `_.set(v, keys, x)` viewed through JSON: writing past the end of an array
      fills the gap with holes, which serialise as `null`; a guarded key stops the
      walk; `length` resizes an array. */
  function SetIn(v: Value, keys: seq<string>, x: Value): (r: Value)
    ensures keys != [] ==> (r.Obj? <==> v.Obj?) && (r.Arr? <==> v.Arr?)
    decreases |keys|, 0
  {
    if keys == [] then x
    else if IsGuardedKey(keys[0]) then v
    else match v
      case Obj(m) => Obj(SetKey(m, keys[0], keys[1..], x))
      case Arr(a) =>
        if keys[0] == "length" then
          SetLength(a, if keys[1..] == [] then x else Prepare(Num(|a|), keys[1..]))
        else if !IsArrayIndex(keys[0]) then v
        else
          var i := DecimalValue(keys[0]);
          if i < |a| then Arr(a[i := SetIn(Prepare(a[i], keys[1..]), keys[1..], x)])
          else Arr(a + seq(i - |a|, _ => Null) + [SetIn(Prepare(Null, keys[1..]), keys[1..], x)])
      case _ => v
  }

  /** `a.length = len`: the array is cut or padded with holes to `Number(len)`;
      a length that is not an integer in `[0, 2^32)` throws a `RangeError`, which
      leaves the array as it was. Below a `length` key `_.set` assigns the fresh
      container it walks into, so only an empty array (whose number is 0) is a
      valid length there. */
  function SetLength(a: seq<Value>, len: Value): (r: Value)
    ensures r.Arr?
  {
    match NumberOf(len)
    case Some(n) => if 0 <= n < 0x1_0000_0000 then Arr(Resize(a, n)) else Arr(a)
    case None => Arr(a)
  }

  /** The elements of an array after its length is set to `n`. */
  function Resize(a: seq<Value>, n: nat): (r: seq<Value>)
    ensures |r| == n
    ensures forall i :: 0 <= i < n && i < |a| ==> r[i] == a[i]
    ensures forall i :: |a| <= i < n ==> r[i] == Null
  {
    if n <= |a| then a[..n] else a + seq(n - |a|, _ => Null)
  }

  /** The assignment `m[k] = ...` at one level of `_.set`. */
  function SetKey(m: map<string, Value>, k: string, rest: seq<string>, x: Value): (r: map<string, Value>)
    ensures r.Keys == m.Keys + {k}
    ensures forall k' :: k' in m && k' != k ==> r[k'] == m[k']
    decreases |rest|, 1
  {
    var child := if k in m then m[k] else Null;
    m[k := SetIn(Prepare(child, rest), rest, x)]
  }

  /** `_.set(state.static, path, x)`. It touches only the first key of the path:
      every other top-level variable keeps its value. A guarded first key writes
      nothing. */
  function SetPath(m: map<string, Value>, p: Path, x: Value): (r: map<string, Value>)
    ensures IsGuardedKey(p[0]) ==> r == m
    ensures !IsGuardedKey(p[0]) ==> r.Keys == m.Keys + {p[0]}
    ensures forall k :: k in m && k != p[0] ==> r[k] == m[k]
  {
    if IsGuardedKey(p[0]) then m else SetKey(m, p[0], p[1..], x)
  }

  /** `SetPath` is `SetIn` on the object of all variables. */
  lemma SetPathIsSetIn(m: map<string, Value>, p: Path, x: Value)
    ensures SetIn(Obj(m), p, x) == Obj(SetPath(m, p, x))
  {
  }

  /** A write along `keys` lands: the path holds no guarded key and never asks an
      array for a key that is not an array index (`length` included). For a
      one-key path without a guarded key this always holds. */
  predicate Reaches(v: Value, keys: seq<string>)
    decreases |keys|
  {
    || keys == []
    || (&& !IsGuardedKey(keys[0])
        && match v
           case Obj(m) => Reaches(Prepare(if keys[0] in m then m[keys[0]] else Null, keys[1..]), keys[1..])
           case Arr(a) =>
             && IsArrayIndex(keys[0])
             && Reaches(Prepare(if DecimalValue(keys[0]) < |a| then a[DecimalValue(keys[0])] else Null, keys[1..]), keys[1..])
           case _ => false)
  }

  /** Reading back a path just written gives the value written, whatever was there
      before (of any type, or nothing). */
  lemma {:induction false} GetAfterSet(v: Value, keys: seq<string>, x: Value)
    requires Reaches(v, keys)
    ensures GetIn(SetIn(v, keys, x), keys) == Some(x)
    decreases |keys|
  {
    if keys != [] {
      var k, rest := keys[0], keys[1..];
      match v
      case Obj(m) =>
        var child := Prepare(if k in m then m[k] else Null, rest);
        GetAfterSet(child, rest, x);
      case Arr(a) =>
        var i := DecimalValue(k);
        if i < |a| {
          GetAfterSet(Prepare(a[i], rest), rest, x);
        } else {
          var pad := seq(i - |a|, _ => Null);
          var a' := a + pad + [SetIn(Prepare(Null, rest), rest, x)];
          assert a'[i] == SetIn(Prepare(Null, rest), rest, x);
          GetAfterSet(Prepare(Null, rest), rest, x);
        }
    }
  }

  /** `_.set` on a one-key path lands unless the key is guarded. */
  lemma ReachesSingleKey(m: map<string, Value>, k: string)
    requires !IsGuardedKey(k)
    ensures Reaches(Obj(m), [k])
  {
    assert [k][1..] == [];
  }

  /** A guarded key stops `_.set` where it stands. */
  lemma GuardedKeyStops(v: Value, keys: seq<string>, x: Value)
    requires keys != [] && IsGuardedKey(keys[0])
    ensures SetIn(v, keys, x) == v
  {
  }

  /** An array's `length` reads as its number of elements, and setting it cuts or
      pads the array; an invalid length leaves the array as it was. */
  lemma ArrayLength(a: seq<Value>, x: Value)
    ensures GetIn(Arr(a), ["length"]) == Some(Num(|a|))
    ensures SetIn(Arr(a), ["length"], x) ==
      match NumberOf(x)
      case Some(n) => if 0 <= n < 0x1_0000_0000 then Arr(Resize(a, n)) else Arr(a)
      case None => Arr(a)
  {
    assert ["length"][1..] == [];
  }

  /** Replacing the value found at an existing path in place, as a mutation of the
      object `_.get` returned does: the walk follows own keys and array indices
      only, and a path that does not lead there changes nothing. */
  function PutIn(v: Value, keys: seq<string>, x: Value): (r: Value)
    ensures keys != [] ==> (v.Obj? <==> r.Obj?) && (v.Arr? <==> r.Arr?)
    ensures v.Obj? && keys != [] ==> r.fields.Keys == v.fields.Keys
    ensures v.Arr? && keys != [] ==> |r.items| == |v.items|
    decreases |keys|
  {
    if keys == [] then x
    else match v
      case Obj(m) =>
        if keys[0] in m then Obj(m[keys[0] := PutIn(m[keys[0]], keys[1..], x)]) else v
      case Arr(a) =>
        if keys[0] != "length" && IsArrayIndex(keys[0]) && DecimalValue(keys[0]) < |a|
        then Arr(a[DecimalValue(keys[0]) := PutIn(a[DecimalValue(keys[0])], keys[1..], x)])
        else v
      case _ => v
  }

  /** `PutIn` on the object of all variables: only the variable the path starts
      at can change. */
  function PutPath(m: map<string, Value>, p: Path, x: Value): (r: map<string, Value>)
    ensures r.Keys == m.Keys
    ensures forall k :: k in m && k != p[0] ==> r[k] == m[k]
  {
    if p[0] in m then m[p[0] := PutIn(m[p[0]], p[1..], x)] else m
  }

  /** Where `_.get` finds an array or an object, replacing it in place and reading
      the path again gives the replacement. Guarded keys do not stop this walk. */
  lemma {:induction false} GetAfterPut(v: Value, keys: seq<string>, x: Value)
    requires GetIn(v, keys).Some? && GetIn(v, keys).value.IsContainer()
    ensures GetIn(PutIn(v, keys, x), keys) == Some(x)
    decreases |keys|
  {
    if keys != [] {
      ContainerFromContainer(v, keys);
      match v
      case Obj(m) =>
        GetAfterPut(m[keys[0]], keys[1..], x);
      case Arr(a) =>
        assert keys[0] != "length";
        GetAfterPut(a[DecimalValue(keys[0])], keys[1..], x);
    }
  }

  /** `PutPath` is `PutIn` on the object of all variables. */
  lemma PutPathIsPutIn(m: map<string, Value>, p: Path, x: Value)
    ensures PutIn(Obj(m), p, x) == Obj(PutPath(m, p, x))
  {
  }

  /** Paths `p` and `q` agree before position `i` and part there, inside an object
      or an array. Inside an array neither key is `length`: writing an index past
      the end lengthens the array, and writing `length` drops or adds elements. */
  predicate PartsInside(v: Value, p: seq<string>, q: seq<string>, i: nat) {
    && i < |p| && i < |q| && p[..i] == q[..i] && p[i] != q[i]
    && match GetIn(v, q[..i])
       case Some(Obj(_)) => true
       case Some(Arr(_)) => p[i] != "length" && q[i] != "length"
       case _ => false
  }

  /** Writing one path leaves every existing value on a path that parts from it
      inside an object or an array as it was. */
  lemma {:induction false} SetKeepsOtherPaths(v: Value, p: seq<string>, q: seq<string>, i: nat, x: Value)
    requires PartsInside(v, p, q, i) && GetIn(v, q).Some?
    ensures GetIn(SetIn(v, p, x), q) == GetIn(v, q)
    decreases i
  {
    var k := q[0];
    if IsGuardedKey(p[0]) {
    } else if i == 0 {
      assert q[..0] == [];
      SetKeepsSibling(v, p, q, x);
    } else {
      PartsDescend(v, p, q, i);
      var child := ChildAt(v, k);
      SetKeepsOtherPaths(child, p[1..], q[1..], i - 1, x);
      SetThroughChild(v, p, q, x);
    }
  }

  /** Paths that part below the first key part inside the value under that key,
      and that value and `v` are arrays or objects. */
  lemma PartsDescend(v: Value, p: seq<string>, q: seq<string>, i: nat)
    requires PartsInside(v, p, q, i) && i > 0 && GetIn(v, q).Some?
    ensures p[0] == q[0] && v.IsContainer() && ChildAt(v, q[0]).IsContainer()
    ensures PartsInside(ChildAt(v, q[0]), p[1..], q[1..], i - 1)
    ensures GetIn(v, q) == GetIn(ChildAt(v, q[0]), q[1..])
    ensures GetIn(v, [q[0]]).Some?
  {
    var k := q[0];
    assert p[0] == q[0] by { assert p[..i][0] == q[..i][0]; }
    var qi := q[..i];
    assert qi[0] == k && qi[1..] == q[1..][..i - 1];
    ContainerFromContainer(v, qi);
    var child := ChildAt(v, k);
    assert GetIn(v, qi) == GetIn(child, q[1..][..i - 1]);
    assert p[1..][..i - 1] == q[1..][..i - 1] by {
      assert p[1..][..i - 1] == p[..i][1..];
      assert q[1..][..i - 1] == q[..i][1..];
    }
    if i > 1 {
      ContainerFromContainer(child, q[1..][..i - 1]);
    }
    assert [k][1..] == [];
  }

  /** Below a key the container holds, `_.set` writes into the value it finds there. */
  lemma SetThroughChild(v: Value, p: seq<string>, q: seq<string>, x: Value)
    requires p != [] && q != [] && p[0] == q[0] && !IsGuardedKey(p[0]) && |p| > 1
    requires v.IsContainer() && ChildAt(v, q[0]).IsContainer() && GetIn(v, [q[0]]).Some?
    ensures GetIn(SetIn(v, p, x), q) == GetIn(SetIn(ChildAt(v, q[0]), p[1..], x), q[1..])
  {
    assert [q[0]][1..] == [];
  }

  /** Writing under one key of an array or object leaves what lies under another
      key as it was. */
  lemma SetKeepsSibling(v: Value, p: seq<string>, q: seq<string>, x: Value)
    requires p != [] && q != [] && p[0] != q[0] && !IsGuardedKey(p[0])
    requires v.Obj? || (v.Arr? && p[0] != "length" && q[0] != "length")
    requires GetIn(v, q).Some?
    ensures GetIn(SetIn(v, p, x), q) == GetIn(v, q)
  {
    var k := q[0];
    match v
    case Obj(m) =>
    case Arr(a) =>
      if IsArrayIndex(p[0]) {
        var j := DecimalValue(p[0]);
        var jq := DecimalValue(k);
        CanonicalNumeralInjective(p[0], k);
        if j >= |a| {
          var a' := a + seq(j - |a|, _ => Null) + [SetIn(Prepare(Null, p[1..]), p[1..], x)];
          assert a'[jq] == a[jq];
        }
      }
  }

  /** The value an array or object holds under a key it has. */
  function ChildAt(v: Value, k: string): Value {
    match v
    case Obj(m) => if k in m then m[k] else Null
    case Arr(a) => if IsArrayIndex(k) && DecimalValue(k) < |a| then a[DecimalValue(k)] else Null
    case _ => Null
  }

  lemma CanonicalNumeralInjective(a: string, b: string)
    requires IsCanonicalNumeral(a) && IsCanonicalNumeral(b) && a != b
    ensures DecimalValue(a) != DecimalValue(b)
  {
    NumeralOfValue(a);
    NumeralOfValue(b);
  }

  /** A canonical numeral is the one `String` writes for its value. */
  lemma {:induction false} NumeralOfValue(a: string)
    requires IsCanonicalNumeral(a)
    ensures NatToString(DecimalValue(a)) == a
    decreases |a|
  {
    var n := DecimalValue(a);
    if |a| > 1 {
      var init := a[..|a| - 1];
      assert IsCanonicalNumeral(init) by { assert init[0] == a[0]; }
      NumeralOfValue(init);
      var d := DigitValue(a[|a| - 1]);
      assert n / 10 == DecimalValue(init) && n % 10 == d;
      assert n >= 10 by { NumeralAtLeastTen(init); }
      assert DigitChar(d) == a[|a| - 1];
      assert a == init + [a[|a| - 1]];
    } else {
      assert |a| == 1 && a[..|a| - 1] == [];
      assert DecimalValue(a[..|a| - 1]) == 0;
      assert n == DigitValue(a[0]);
      assert DigitChar(n) == a[0];
    }
  }

  lemma {:induction false} NumeralAtLeastTen(init: string)
    requires IsCanonicalNumeral(init)
    ensures DecimalValue(init) >= 1 || init == "0"
    decreases |init|
  {
    if |init| > 1 {
      var i' := init[..|init| - 1];
      assert IsCanonicalNumeral(i') by { assert i'[0] == init[0]; }
      NumeralAtLeastTen(i');
      assert i' != "0" by { assert i'[0] == init[0]; }
    }
  }

  // ---------------------------------------------------------------------------
  // Coercions
  // ---------------------------------------------------------------------------

  /** `isNaN(s) ? s : Number(s)`: the numeric coercion applied to every value the
      commands write. Under JavaScript's rules the empty string is the number 0. */
  function Coerce(s: string): (v: Value)
    ensures v.Num? || v == Str(s)
    ensures v.Num? <==> ToNumber(s).Some?
  {
    match ToNumber(s)
    case Some(n) => Num(n)
    case None => Str(s)
  }

  /** A blank value, the empty string included, is written as the number 0, not
      as a string. */
  lemma CoerceBlank(s: string)
    requires AllSpace(s)
    ensures Coerce(s) == Num(0)
  {
    LeadingAllSpace(s);
  }

  /** `Number(v)` for a JSON value, `None` for `NaN`. A string or an array is read
      through its text; an object prints as `[object Object]`, which is `NaN`. */
  function NumberOf(v: Value): Option<int> {
    match v
    case Null => Some(0)
    case Bool(b) => Some(if b then 1 else 0)
    case Num(n) => Some(n)
    case Str(s) => ToNumber(s)
    case Arr(items) => ToNumber(JoinElements(items))
    case Obj(_) => None
  }

  /** `Number(v) || 0`: the numeric base `ADD` starts from; `NaN` becomes 0. */
  function BaseNumber(v: Value): int {
    NumberOf(v).GetOr(0)
  }

  /** `${v}`: the text JavaScript's string conversion gives a value. */
  function Display(v: Value): string
    decreases v, 1
  {
    match v
    case Null => "null"
    case Bool(b) => if b then "true" else "false"
    case Num(n) => IntToString(n)
    case Str(s) => s
    case Arr(items) => JoinElements(items)
    case Obj(_) => "[object Object]"
  }

  /** `Array.prototype.join(",")`: `null` elements print as empty strings. */
  function JoinElements(items: seq<Value>): string
    decreases items, 0
  {
    if items == [] then ""
    else
      var head := if items[0].Null? then "" else Display(items[0]);
      if |items| == 1 then head else head + "," + JoinElements(items[1..])
  }

  /** Printing a coerced value and coercing the text again gives the same value:
      a scheduled value survives its trip through a promoted `SET` command. */
  lemma CoerceDisplayCoerce(s: string)
    ensures Coerce(Display(Coerce(s))) == Coerce(s)
  {
    match ToNumber(s)
    case Some(n) => ToNumberIntToString(n);
    case None =>
  }
}
