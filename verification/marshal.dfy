/**
  The value marshaller: the engine's native values and their conversion into
  the JSON-safe model (`matlab_to_python`).
 */
module Marshal {
  import opened Json

  /**
    What the engine can hand back. Arrays carry their MATLAB dimensions and
    their elements in row-major order (the order `np.array` lays them out).
    `Unsupported` is any other type (struct, cell, table, ...): `str` is what
    `str(data)` yields, `None` when that call raises.
   */
  datatype NativeValue =
    | PyStr(s: string)
    | PyInt(i: int)
    | PyFloat(x: Float)
    | PyBool(b: bool)
    | PyNone
    | MDouble(shape: seq<nat>, reals: seq<Float>)
    | MLogical(shape: seq<nat>, bits: seq<bool>)
    | MChar(text: string)
    | Unsupported(typeName: string, str: Option<string>)

  function Product(shape: seq<nat>): nat {
    if |shape| == 0 then 1 else shape[0] * Product(shape[1..])
  }

  /** Arrays hold exactly as many elements as their dimensions promise. */
  predicate WellFormed(v: NativeValue) {
    match v
    case MDouble(shape, reals) => |reals| == Product(shape)
    case MLogical(shape, bits) => |bits| == Product(shape)
    case _ => true
  }

  predicate IsPrimitive(v: NativeValue) {
    v.PyStr? || v.PyInt? || v.PyFloat? || v.PyBool? || v.PyNone?
  }

  /** numpy's `squeeze`: drop every dimension of length one, keep the rest in order. */
  function Squeeze(shape: seq<nat>): (r: seq<nat>)
    ensures forall i :: 0 <= i < |r| ==> r[i] != 1
    ensures forall d :: d in r <==> d in shape && d != 1
    ensures Product(r) == Product(shape)
    ensures |r| <= |shape|
    ensures |r| == 0 <==> forall i :: 0 <= i < |shape| ==> shape[i] == 1
  {
    if |shape| == 0 then []
    else if shape[0] == 1 then Squeeze(shape[1..])
    else [shape[0]] + Squeeze(shape[1..])
  }

  /** `tolist` of a C-ordered array: the flat elements cut into nested rows. */
  function Nest(shape: seq<nat>, xs: seq<JsonValue>): JsonValue
    requires |xs| == Product(shape)
    decreases |shape|, 1
  {
    if |shape| == 0 then xs[0]
    else JList(Rows(shape[0], shape[1..], xs))
  }

  /** `n` consecutive rows of shape `inner` taken from `xs`. */
  function Rows(n: nat, inner: seq<nat>, xs: seq<JsonValue>): seq<JsonValue>
    requires |xs| == n * Product(inner)
    decreases |inner| + 1, 0, n
  {
    if n == 0 then []
    else
      var k := Product(inner);
      PeelRow(n, k);
      [Nest(inner, xs[..k])] + Rows(n - 1, inner, xs[k..])
  }

  /** Taking one row of `k` elements off `n` rows leaves `n - 1` rows. */
  lemma PeelRow(n: nat, k: nat)
    requires n > 0
    ensures n * k == k + (n - 1) * k
  {
  }

  function FloatLeaves(reals: seq<Float>): (r: seq<JsonValue>)
    ensures |r| == |reals|
    ensures forall i :: 0 <= i < |r| ==> r[i] == JFloat(reals[i])
  {
    seq(|reals|, i requires 0 <= i < |reals| => JFloat(reals[i]))
  }

  function BoolLeaves(bits: seq<bool>): (r: seq<JsonValue>)
    ensures |r| == |bits|
    ensures forall i :: 0 <= i < |r| ==> r[i] == JBool(bits[i])
  {
    seq(|bits|, i requires 0 <= i < |bits| => JBool(bits[i]))
  }

  /** How Python prints a type object: `<class 'name'>`. */
  function TypeRepr(typeName: string): string {
    "<class '" + typeName + "'>"
  }

  /** The fixed fallback when even `str(data)` fails. */
  function Sentinel(typeName: string): string {
    "Unserializable MATLAB Type: " + TypeRepr(typeName)
  }

  /**
    `matlab_to_python`. Total on well-formed values: primitives pass through,
    numeric and logical arrays are squeezed and nested, text becomes a string,
    and anything else degrades to its string form or to the sentinel.
   */
  function ToJson(v: NativeValue): (r: JsonValue)
    requires WellFormed(v)
    ensures IsPrimitive(v) ==> ToNative(r) == Some(v)
    ensures v.MDouble? ==> HasShape(r, Squeeze(v.shape)) && Flatten(r) == FloatLeaves(v.reals)
    ensures v.MLogical? ==> HasShape(r, Squeeze(v.shape)) && Flatten(r) == BoolLeaves(v.bits)
    ensures v.MChar? ==> r == JStr(v.text)
    ensures v.Unsupported? ==> r.JStr? && (v.str.Some? ==> r.s == v.str.value)
    ensures v.Unsupported? && v.str.None? ==> r.s == Sentinel(v.typeName)
  {
    match v
    case PyStr(s) => JStr(s)
    case PyInt(i) => JInt(i)
    case PyFloat(x) => JFloat(x)
    case PyBool(b) => JBool(b)
    case PyNone => JNull
    case MDouble(shape, reals) =>
      var leaves := FloatLeaves(reals);
      NestShapeAndOrder(Squeeze(shape), leaves);
      Nest(Squeeze(shape), leaves)
    case MLogical(shape, bits) =>
      var leaves := BoolLeaves(bits);
      NestShapeAndOrder(Squeeze(shape), leaves);
      Nest(Squeeze(shape), leaves)
    case MChar(text) => JStr(text)
    case Unsupported(typeName, str) =>
      match str
      case Some(s) => JStr(s)
      case None => JStr(Sentinel(typeName))
  }

  /** Reads a JSON scalar back as the Python primitive it came from. */
  function ToNative(j: JsonValue): Option<NativeValue> {
    match j
    case JNull => Some(PyNone)
    case JBool(b) => Some(PyBool(b))
    case JInt(i) => Some(PyInt(i))
    case JFloat(x) => Some(PyFloat(x))
    case JStr(s) => Some(PyStr(s))
    case JList(_) => None
  }

  /** Nesting the flat elements yields the requested shape, and reading it back gives the elements in the same order. */
  lemma {:induction false} NestShapeAndOrder(shape: seq<nat>, xs: seq<JsonValue>)
    requires |xs| == Product(shape)
    requires AllScalars(xs)
    ensures HasShape(Nest(shape, xs), shape)
    ensures Flatten(Nest(shape, xs)) == xs
    decreases |shape|, 1
  {
    if |shape| == 0 {
      assert xs == [xs[0]];
    } else {
      RowsShapeAndOrder(shape[0], shape[1..], xs);
    }
  }

  lemma {:induction false} RowsShapeAndOrder(n: nat, inner: seq<nat>, xs: seq<JsonValue>)
    requires |xs| == n * Product(inner)
    requires AllScalars(xs)
    ensures |Rows(n, inner, xs)| == n
    ensures forall i :: 0 <= i < n ==> HasShape(Rows(n, inner, xs)[i], inner)
    ensures FlattenAll(Rows(n, inner, xs)) == xs
    decreases |inner| + 1, 0, n
  {
    if n > 0 {
      var k := Product(inner);
      PeelRow(n, k);
      var head := Nest(inner, xs[..k]);
      var tail := Rows(n - 1, inner, xs[k..]);
      NestShapeAndOrder(inner, xs[..k]);
      RowsShapeAndOrder(n - 1, inner, xs[k..]);
      assert Rows(n, inner, xs) == [head] + tail;
      assert ([head] + tail)[1..] == tail;
      assert xs == xs[..k] + xs[k..];
    }
  }

  lemma {:induction false} RowsLength(n: nat, inner: seq<nat>, xs: seq<JsonValue>)
    requires |xs| == n * Product(inner)
    ensures |Rows(n, inner, xs)| == n
    decreases n
  {
    if n > 0 {
      PeelRow(n, Product(inner));
      RowsLength(n - 1, inner, xs[Product(inner)..]);
    }
  }

  /** An array whose every dimension is one (a MATLAB scalar) comes back as a bare number or boolean. */
  lemma ScalarArrayUnwraps(v: NativeValue)
    requires WellFormed(v)
    requires v.MDouble? || v.MLogical?
    requires forall i :: 0 <= i < |v.shape| ==> v.shape[i] == 1
    ensures v.MDouble? ==> |v.reals| == 1 && ToJson(v) == JFloat(v.reals[0])
    ensures v.MLogical? ==> |v.bits| == 1 && ToJson(v) == JBool(v.bits[0])
  {
    assert Squeeze(v.shape) == [];
  }

  /**
    `rows` cuts `xs` into consecutive rows of `n` elements each: the first row
    is the first `n` elements, the rest cut what follows.
   */
  predicate RowMajor(rows: seq<JsonValue>, n: nat, xs: seq<JsonValue>)
    decreases |rows|
  {
    if |rows| == 0 then xs == []
    else n <= |xs| && rows[0] == JList(xs[..n]) && RowMajor(rows[1..], n, xs[n..])
  }

  /**
    An m-by-n numeric matrix with both dimensions other than one becomes a
    list of m lists, each the next n elements in row-major order.
   */
  lemma MatrixRowMajor(m: nat, n: nat, reals: seq<Float>)
    requires m != 1 && n != 1
    requires |reals| == Product([m, n])
    ensures ToJson(MDouble([m, n], reals)).JList?
    ensures |ToJson(MDouble([m, n], reals)).items| == m
    ensures RowMajor(ToJson(MDouble([m, n], reals)).items, n, FloatLeaves(reals))
  {
    assert [m, n][1..] == [n];
    assert Squeeze([m, n]) == [m, n];
    assert ToJson(MDouble([m, n], reals)) == JList(Rows(m, [n], FloatLeaves(reals)));
    RowsLength(m, [n], FloatLeaves(reals));
    VectorRows(m, n, FloatLeaves(reals));
  }

  lemma {:induction false} VectorRows(m: nat, n: nat, xs: seq<JsonValue>)
    requires |xs| == m * Product([n])
    ensures RowMajor(Rows(m, [n], xs), n, xs)
    decreases m
  {
    assert [n][1..] == [];
    assert Product([n]) == n;
    if m == 0 {
      assert xs == [];
    } else {
      PeelRow(m, n);
      var tail := Rows(m - 1, [n], xs[n..]);
      VectorRows(m - 1, n, xs[n..]);
      assert Rows(m, [n], xs) == [Nest([n], xs[..n])] + tail;
      assert ([Nest([n], xs[..n])] + tail)[1..] == tail;
      VectorIsList(n, xs[..n]);
    }
  }

  /** A one-dimensional shape nests to the plain list of its elements. */
  lemma {:induction false} VectorIsList(n: nat, xs: seq<JsonValue>)
    requires |xs| == n
    ensures |xs| == Product([n])
    ensures Nest([n], xs) == JList(xs)
  {
    assert [n][1..] == [];
    RowsOfScalars(n, xs);
  }

  lemma {:induction false} RowsOfScalars(n: nat, xs: seq<JsonValue>)
    requires |xs| == n
    ensures |xs| == n * Product([])
    ensures Rows(n, [], xs) == xs
    decreases n
  {
    if n > 0 {
      RowsOfScalars(n - 1, xs[1..]);
      assert xs == [xs[0]] + xs[1..];
    }
  }

  /**
    `squeeze` works dimension by dimension: squeezing a concatenation
    squeezes each part in place, and (`SqueezeOne`) a single dimension is
    dropped exactly when it is one. Together these fix the order and the
    multiplicity of the surviving dimensions.
   */
  lemma {:induction false} SqueezeSplits(a: seq<nat>, b: seq<nat>)
    ensures Squeeze(a + b) == Squeeze(a) + Squeeze(b)
    decreases |a|
  {
    if |a| == 0 {
      assert a + b == b;
    } else {
      assert (a + b)[0] == a[0];
      assert (a + b)[1..] == a[1..] + b;
      SqueezeSplits(a[1..], b);
    }
  }

  lemma SqueezeOne(d: nat)
    ensures Squeeze([d]) == if d == 1 then [] else [d]
  {
    assert [d][1..] == [];
  }

  /**
    `squeeze` leaves a shape unchanged exactly when no dimension is one; in
    particular squeezing twice is squeezing once.
   */
  lemma {:induction false} SqueezeFixedPoint(shape: seq<nat>)
    ensures Squeeze(shape) == shape <==> forall i :: 0 <= i < |shape| ==> shape[i] != 1
    ensures Squeeze(Squeeze(shape)) == Squeeze(shape)
  {
    if |shape| > 0 {
      SqueezeFixedPoint(shape[1..]);
      if shape[0] != 1 {
        assert ([shape[0]] + Squeeze(shape[1..]))[1..] == Squeeze(shape[1..]);
        if forall i :: 0 <= i < |shape| ==> shape[i] != 1 {
          assert forall i :: 0 <= i < |shape[1..]| ==> shape[1..][i] == shape[i + 1];
        }
      }
    }
  }
}
