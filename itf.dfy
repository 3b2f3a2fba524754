/** The ITF tagged-value decoder of apalache-itf/src/itf.rs.

    A target type of the Rust program (`ItfInt`, `ItfBool`, `ItfString`,
    `ItfBigInt`, `ItfSet<T>`, `ItfMap<K, V>`, `ItfTuple<(A, B, ...)>`) is a
    `Shape` here, and the decoded value of that type is a `Decoded`. Each
    `Deserialize` impl of the source is one function below; they call `Decode`
    on their components, which dispatches on the shape. Recursion goes down the
    shape, so every decreases clause leads with a shape. */
module ItfDecode {
  import opened Wrappers
  import opened JsonValue
  import opened Decimal

  // ---------------------------------------------------------------------------
  // The transparent wrapper Itf<T>
  // ---------------------------------------------------------------------------

  /** `Itf<T>`: a single-field wrapper with no state of its own. Equality is
      structural, so two wrappers are equal exactly when their contents are. */
  datatype Itf<T> = Itf(inner: T) {

    /** `Itf::value`: unwrap to the bare value. */
    function Value(): (t: T)
      ensures Itf(t) == this
    {
      inner
    }
  }

  /** `From<T> for Itf<T>`: wrap a bare value. */
  function From<T>(t: T): (w: Itf<T>)
    ensures w.Value() == t
  {
    Itf(t)
  }

  /** The derived `PartialOrd`/`Ord` on a one-field struct: compare the field. */
  function Less<T>(innerLess: (T, T) -> bool, a: Itf<T>, b: Itf<T>): bool {
    innerLess(a.inner, b.inner)
  }

  // ---------------------------------------------------------------------------
  // Target shapes, decoded values, errors
  // ---------------------------------------------------------------------------

  /** The Rust type a caller asks the decoder for. */
  datatype Shape =
    | I64                            // ItfInt = i64
    | Boolean                        // ItfBool = bool
    | Text                           // ItfString = String
    | BigInt                         // ItfBigInt = Itf<BigInt>
    | SetOf(elem: Shape)             // ItfSet<T> = Itf<HashSet<T>>
    | MapOf(key: Shape, val: Shape)  // ItfMap<K, V> = Itf<HashMap<K, V>>
    | TupleOf(elems: seq<Shape>)     // ItfTuple<(A, B, ...)> = Itf<(A, B, ...)>

  /** Types that are `Eq + Hash`: `HashSet` and `HashMap` are not, so they
      cannot be set elements or map keys (nor sit inside a tuple that is one). */
  predicate Hashable(s: Shape) {
    match s
    case SetOf(_) => false
    case MapOf(_, _) => false
    case TupleOf(es) => forall i :: 0 <= i < |es| ==> Hashable(es[i])
    case _ => true
  }

  /** The shapes that name a Rust type with a `Deserialize` impl: hashable set
      elements and map keys, and tuples of arity 2 to 12 (the arities that
      `deserialize_itf_tuple!` is instantiated for). */
  predicate ValidShape(s: Shape) {
    match s
    case SetOf(e) => Hashable(e) && ValidShape(e)
    case MapOf(k, v) => Hashable(k) && ValidShape(k) && ValidShape(v)
    case TupleOf(es) => 2 <= |es| <= 12 && forall i :: 0 <= i < |es| ==> ValidShape(es[i])
    case _ => true
  }

  /** A decoded value; the compound ones are held in the wrapper, as the
      source's `Itf<...>` types are. */
  datatype Decoded =
    | Int(i: int)
    | Bool(b: bool)
    | Str(s: string)
    | Big(n: Itf<int>)
    | SetV(elems: Itf<set<Decoded>>)
    | MapV(entries: Itf<map<Decoded, Decoded>>)
    | Tuple(items: Itf<seq<Decoded>>)

  /** The failures the decoder reports. */
  datatype DecodeError =
    | InvalidType(wanted: string)          // the JSON kind is not the one the target reads
    | OutOfRange(n: int)                   // a JSON number that is not an i64
    | MissingField(field: string)          // an object without the required tag field
    | InvalidLength(length: nat)           // an array of the wrong length for a struct or a pair
    | NoVariantMatched                     // neither form of the untagged IntOrBigInt applies
    | TupleArity(expected: nat, found: nat)
    | Custom(inner: DecodeError)           // an element error re-raised by the tuple decoder

  const I64_MIN: int := -0x8000_0000_0000_0000
  const I64_MAX: int := 0x7FFF_FFFF_FFFF_FFFF

  predicate InI64(n: int) {
    I64_MIN <= n <= I64_MAX
  }

  /** The outermost constructor of the value is the one the shape asks for:
      the top level of `HasShape`, which `Decode` can state of its own result
      as a non-ghost contract. */
  predicate SameKind(v: Decoded, s: Shape) {
    match s
    case I64 => v.Int? && InI64(v.i)
    case Boolean => v.Bool?
    case Text => v.Str?
    case BigInt => v.Big?
    case SetOf(_) => v.SetV?
    case MapOf(_, _) => v.MapV?
    case TupleOf(es) => v.Tuple? && |v.items.inner| == |es|
  }

  /** The value has the shape that was asked for, down to its components.
      Its top level is the test `SameKind` makes, written out again here rather
      than called: the proofs about decoding that unfold this predicate stay
      markedly cheaper when it is one flat match. */
  ghost predicate HasShape(v: Decoded, s: Shape)
    decreases s
  {
    match s
    case I64 => v.Int? && InI64(v.i)
    case Boolean => v.Bool?
    case Text => v.Str?
    case BigInt => v.Big?
    case SetOf(e) =>
      v.SetV? && forall x :: x in v.elems.inner ==> HasShape(x, e)
    case MapOf(k, w) =>
      v.MapV? && forall x :: x in v.entries.inner ==> HasShape(x, k) && HasShape(v.entries.inner[x], w)
    case TupleOf(es) =>
      v.Tuple? && |v.items.inner| == |es| &&
      forall i :: 0 <= i < |es| ==> HasShape(v.items.inner[i], es[i])
  }

  /** A value of the requested shape is of the requested kind. */
  lemma HasShapeSameKind(v: Decoded, s: Shape)
    ensures HasShape(v, s) ==> SameKind(v, s)
  {
  }

  // ---------------------------------------------------------------------------
  // Scalars
  // ---------------------------------------------------------------------------

  /** `i64` from a JSON value: only a number, and only within 64 bits. */
  function DecodeI64(j: Json): (r: Result<int, DecodeError>)
    ensures r.Ok? <==> j.JNum? && InI64(j.n)
    ensures r.Ok? ==> r.value == j.n
  {
    match j
    case JNum(n) => if InI64(n) then Ok(n) else Err(OutOfRange(n))
    case _ => Err(InvalidType("i64"))
  }

  function DecodeBool(j: Json): (r: Result<bool, DecodeError>)
    ensures r.Ok? <==> j.JBool?
    ensures r.Ok? ==> r.value == j.b
  {
    match j
    case JBool(b) => Ok(b)
    case _ => Err(InvalidType("a boolean"))
  }

  function DecodeString(j: Json): (r: Result<string, DecodeError>)
    ensures r.Ok? <==> j.JStr?
    ensures r.Ok? ==> r.value == j.s
  {
    match j
    case JStr(s) => Ok(s)
    case _ => Err(InvalidType("a string"))
  }

  // ---------------------------------------------------------------------------
  // The single-field structs Set, Map, BI and Tup
  // ---------------------------------------------------------------------------

  /** Where a derived one-field struct found its field: under its key in an
      object, or as the first element of an array of the given length. */
  datatype FieldSource = FromObject(payload: Json) | FromArray(payload: Json, length: nat)

  /** How a derived struct with the one field renamed to `tag` reads a JSON
      node. An object must hold the key (other keys are ignored: the structs do
      not deny unknown fields); an array is read positionally, so its first
      element is the field. Any other node is the wrong kind. */
  function StructField(j: Json, tag: string): (r: Result<FieldSource, DecodeError>)
    ensures j.JObj? ==> (r.Ok? <==> tag in j.fields)
    ensures j.JObj? && tag in j.fields ==> r == Ok(FromObject(j.fields[tag]))
    ensures j.JObj? && tag !in j.fields ==> r == Err(MissingField(tag))
    ensures r.Ok? ==> j.JObj? || j.JArr?
  {
    match j
    case JObj(fields) => if tag in fields then Ok(FromObject(fields[tag])) else Err(MissingField(tag))
    case JArr(items) => if |items| == 0 then Err(InvalidLength(0)) else Ok(FromArray(items[0], |items|))
    case _ => Err(InvalidType("struct with field " + tag))
  }

  /** After the field decoded, an array with elements left over is an error. */
  function NoSurplus<T>(src: FieldSource, r: Result<T, DecodeError>): (r': Result<T, DecodeError>)
    ensures src.FromObject? || src.length <= 1 ==> r' == r
    ensures r.Err? ==> r' == r
    ensures r'.Ok? ==> r' == r
    ensures r.Ok? && src.FromArray? && src.length > 1 ==> r' == Err(InvalidLength(src.length))
  {
    if r.Ok? && src.FromArray? && src.length > 1 then Err(InvalidLength(src.length)) else r
  }

  // ---------------------------------------------------------------------------
  // The decoders
  // ---------------------------------------------------------------------------

  /** Decode `j` as the Rust type `s`. */
  function Decode(j: Json, s: Shape): (r: Result<Decoded, DecodeError>)
    requires ValidShape(s)
    ensures r.Ok? ==> SameKind(r.value, s)
    decreases s, 2, 0
  {
    match s
    case I64 => (match DecodeI64(j) case Ok(n) => Ok(Int(n)) case Err(e) => Err(e))
    case Boolean => (match DecodeBool(j) case Ok(b) => Ok(Bool(b)) case Err(e) => Err(e))
    case Text => (match DecodeString(j) case Ok(t) => Ok(Str(t)) case Err(e) => Err(e))
    case BigInt => (match DecodeBigInt(j) case Ok(w) => Ok(Big(w)) case Err(e) => Err(e))
    case SetOf(e) => (match DecodeSet(j, e) case Ok(w) => Ok(SetV(w)) case Err(err) => Err(err))
    case MapOf(k, v) => (match DecodeMap(j, k, v) case Ok(w) => Ok(MapV(w)) case Err(err) => Err(err))
    case TupleOf(es) => (match DecodeTuple(j, es) case Ok(w) => Ok(Tuple(w)) case Err(err) => Err(err))
  }

  /** `Itf<BigInt>`: the untagged enum `IntOrBigInt` tries a bare i64 first,
      then the struct `BI` whose `#bigint` field is a decimal string. When
      neither applies, the untagged enum reports only that no variant matched. */
  function DecodeBigInt(j: Json): (r: Result<Itf<int>, DecodeError>)
    ensures j.JNum? ==> (r.Ok? <==> InI64(j.n))
    ensures j.JNum? && r.Ok? ==> r.value == From(j.n)
    ensures j.JObj? && "#bigint" !in j.fields ==> r == Err(NoVariantMatched)
    ensures r.Err? ==> r.error == NoVariantMatched
    ensures r.Ok? ==> j.JNum? || j.JObj? || j.JArr?
  {
    match DecodeI64(j)
    case Ok(n) => Ok(From(n))
    case Err(_) =>
      match StructField(j, "#bigint")
      case Err(_) => Err(NoVariantMatched)
      case Ok(src) =>
        match src.payload
        case JStr(t) =>
          (match ParseDecimal(t)
           case Some(n) => (if src.FromArray? && src.length > 1 then Err(NoVariantMatched) else Ok(From(n)))
           case None => Err(NoVariantMatched))
        case _ => Err(NoVariantMatched)
  }

  /** `Itf<HashSet<T>>`: read the `#set` field as a vector, then collect it. */
  function DecodeSet(j: Json, e: Shape): (r: Result<Itf<set<Decoded>>, DecodeError>)
    requires ValidShape(SetOf(e))
    ensures j.JObj? && "#set" !in j.fields ==> r == Err(MissingField("#set"))
    ensures j.JObj? && "#set" in j.fields && j.fields["#set"].JArr? ==>
      (r.Ok? <==> DecodeEach(j.fields["#set"].items, e).Ok?)
    ensures r.Ok? ==> j.JObj? || j.JArr?
    decreases SetOf(e), 1, 0
  {
    match StructField(j, "#set")
    case Err(err) => Err(err)
    case Ok(src) =>
      match src.payload
      case JArr(items) =>
        NoSurplus(src, match DecodeEach(items, e)
                       case Ok(vs) => Ok(From(set v | v in vs))
                       case Err(err) => Err(err))
      case _ => Err(InvalidType("a sequence"))
  }

  /** `Vec<T>`: the elements in array order; the first failure aborts. */
  function DecodeEach(items: seq<Json>, e: Shape): (r: Result<seq<Decoded>, DecodeError>)
    requires ValidShape(SetOf(e))
    ensures r.Ok? ==> |r.value| == |items|
    decreases SetOf(e), 0, |items|
  {
    if items == [] then Ok([])
    else
      match Decode(items[0], e)
      case Err(err) => Err(err)
      case Ok(v) =>
        match DecodeEach(items[1..], e)
        case Err(err) => Err(err)
        case Ok(vs) => Ok([v] + vs)
  }

  /** `Itf<HashMap<K, V>>`: read the `#map` field as a vector of pairs, then
      collect it. */
  function DecodeMap(j: Json, k: Shape, v: Shape): (r: Result<Itf<map<Decoded, Decoded>>, DecodeError>)
    requires ValidShape(MapOf(k, v))
    ensures j.JObj? && "#map" !in j.fields ==> r == Err(MissingField("#map"))
    ensures j.JObj? && "#map" in j.fields && j.fields["#map"].JArr? ==>
      (r.Ok? <==> DecodePairs(j.fields["#map"].items, k, v).Ok?)
    ensures r.Ok? ==> j.JObj? || j.JArr?
    decreases MapOf(k, v), 1, 0
  {
    match StructField(j, "#map")
    case Err(err) => Err(err)
    case Ok(src) =>
      match src.payload
      case JArr(items) =>
        NoSurplus(src, match DecodePairs(items, k, v)
                       case Ok(ps) => Ok(From(Collect(ps)))
                       case Err(err) => Err(err))
      case _ => Err(InvalidType("a sequence"))
  }

  /** `Vec<(K, V)>`: the pairs in array order; the first failure aborts. */
  function DecodePairs(items: seq<Json>, k: Shape, v: Shape): (r: Result<seq<(Decoded, Decoded)>, DecodeError>)
    requires ValidShape(MapOf(k, v))
    ensures r.Ok? ==> |r.value| == |items|
    decreases MapOf(k, v), 0, |items|
  {
    if items == [] then Ok([])
    else
      match DecodePair(items[0], k, v)
      case Err(err) => Err(err)
      case Ok(p) =>
        match DecodePairs(items[1..], k, v)
        case Err(err) => Err(err)
        case Ok(ps) => Ok([p] + ps)
  }

  /** `(K, V)`: an array read positionally, the key first, then the value,
      then a check that nothing follows them. */
  function DecodePair(x: Json, k: Shape, v: Shape): (r: Result<(Decoded, Decoded), DecodeError>)
    requires ValidShape(MapOf(k, v))
    ensures r.Ok? ==> x.JArr? && |x.items| == 2
    ensures x.JArr? && |x.items| == 0 ==> r == Err(InvalidLength(0))
    decreases MapOf(k, v), 0, 0
  {
    match x
    case JArr(xs) =>
      if |xs| == 0 then Err(InvalidLength(0))
      else
        (match Decode(xs[0], k)
         case Err(err) => Err(err)
         case Ok(key) =>
           if |xs| == 1 then Err(InvalidLength(1))
           else
             match Decode(xs[1], v)
             case Err(err) => Err(err)
             case Ok(val) => if |xs| > 2 then Err(InvalidLength(|xs|)) else Ok((key, val)))
    case _ => Err(InvalidType("a tuple of size 2"))
  }

  /** `collect` into a `HashMap`: insert the pairs in order, each insertion
      overwriting the value of an equal key. */
  function Collect(ps: seq<(Decoded, Decoded)>): (m: map<Decoded, Decoded>)
    ensures m.Keys == set i | 0 <= i < |ps| :: ps[i].0
  {
    if ps == [] then map[]
    else
      var init := ps[..|ps| - 1];
      var m := Collect(init);
      assert forall i :: 0 <= i < |init| ==> init[i] == ps[i];
      m[ps[|ps| - 1].0 := ps[|ps| - 1].1]
  }

  /** `Itf<(A, B, ...)>`: read the `#tup` field as a vector of raw JSON values,
      then check the arity and decode the elements by position. */
  function DecodeTuple(j: Json, es: seq<Shape>): (r: Result<Itf<seq<Decoded>>, DecodeError>)
    requires ValidShape(TupleOf(es))
    ensures j.JObj? && "#tup" !in j.fields ==> r == Err(MissingField("#tup"))
    ensures j.JObj? && "#tup" in j.fields && j.fields["#tup"].JArr? ==>
      r == TupleFromElements(j.fields["#tup"].items, es)
    ensures r.Ok? ==> |r.value.Value()| == |es|
    decreases TupleOf(es), 1, 0
  {
    match StructField(j, "#tup")
    case Err(err) => Err(err)
    case Ok(src) =>
      match src.payload
      case JArr(items) =>
        if src.FromArray? && src.length > 1 then Err(InvalidLength(src.length))
        else TupleFromElements(items, es)
      case _ => Err(InvalidType("a sequence"))
  }

  /** The body of `deserialize_itf_tuple!` once the elements are in hand: the
      length check comes first; only then is element i decoded as the i-th type. */
  function TupleFromElements(items: seq<Json>, es: seq<Shape>): (r: Result<Itf<seq<Decoded>>, DecodeError>)
    requires ValidShape(TupleOf(es))
    ensures |items| != |es| ==> r == Err(TupleArity(|es|, |items|))
    ensures r.Ok? ==> |r.value.Value()| == |es|
    ensures r.Err? && |items| == |es| ==> r.error.Custom?
    decreases TupleOf(es), 0, |es| + 1
  {
    if |items| != |es| then Err(TupleArity(|es|, |items|))
    else
      match DecodeElems(items, es, 0)
      case Ok(vs) => Ok(From(vs))
      case Err(err) => Err(err)
  }

  /** Elements k, k+1, ... of a tuple of the right arity; an element error is
      re-raised through `Error::custom`. */
  function DecodeElems(items: seq<Json>, es: seq<Shape>, k: nat): (r: Result<seq<Decoded>, DecodeError>)
    requires ValidShape(TupleOf(es))
    requires |items| == |es| && k <= |es|
    ensures r.Ok? ==> |r.value| == |es| - k
    ensures r.Err? ==> r.error.Custom?
    decreases TupleOf(es), 0, |es| - k
  {
    if k == |es| then Ok([])
    else
      match Decode(items[k], es[k])
      case Err(err) => Err(Custom(err))
      case Ok(v) =>
        match DecodeElems(items, es, k + 1)
        case Err(err) => Err(err)
        case Ok(vs) => Ok([v] + vs)
  }

  // ---------------------------------------------------------------------------
  // The tuple decoder as the source runs it: moving elements out of a vector
  // ---------------------------------------------------------------------------

  /** Prefix the values already decoded to the outcome of the rest. */
  function Prepend(vs: seq<Decoded>, r: Result<seq<Decoded>, DecodeError>): Result<seq<Decoded>, DecodeError> {
    match r
    case Ok(ws) => Ok(vs + ws)
    case Err(err) => Err(err)
  }

  /** The first k elements were moved out; the others are as they were. */
  ghost predicate TakenPrefix(now: seq<Json>, before: seq<Json>, k: nat) {
    |now| == |before| && k <= |now| &&
    (forall i :: 0 <= i < k ==> now[i] == JNull) &&
    (forall i :: k <= i < |now| ==> now[i] == before[i])
  }

  /** Position p is the first whose element does not decode as its type. */
  ghost predicate FirstFailure(items: seq<Json>, es: seq<Shape>, p: nat)
    requires ValidShape(TupleOf(es)) && |items| == |es|
  {
    p < |es| && Decode(items[p], es[p]).Err? &&
    forall i :: 0 <= i < p ==> Decode(items[i], es[i]).Ok?
  }

  /** `deserialize_itf_tuple!` over its local `elements` vector: after the
      arity check, each position is taken out with `std::mem::take` (leaving
      JSON null behind) and decoded; the first failure returns at once. The
      outcome is the one `TupleFromElements` specifies; on an arity mismatch no
      element is touched, and elements after a failing one are never taken. */
  method DecodeTupleInPlace(elements: array<Json>, es: seq<Shape>) returns (r: Result<Itf<seq<Decoded>>, DecodeError>)
    requires ValidShape(TupleOf(es))
    modifies elements
    ensures r == TupleFromElements(old(elements[..]), es)
    ensures elements.Length != |es| ==> elements[..] == old(elements[..])
    ensures r.Ok? ==> forall i :: 0 <= i < elements.Length ==> elements[i] == JNull
    ensures r.Err? && elements.Length == |es| ==>
      exists k :: 1 <= k <= |es| && TakenPrefix(elements[..], old(elements[..]), k) &&
        FirstFailure(old(elements[..]), es, k - 1) &&
        r == Err(Custom(Decode(old(elements[k - 1]), es[k - 1]).error))
  {
    if elements.Length != |es| {
      return Err(TupleArity(|es|, elements.Length));
    }
    ghost var original := elements[..];
    var values: seq<Decoded> := [];
    var n := 0;
    assert Prepend(values, DecodeElems(original, es, 0)) == DecodeElems(original, es, 0) by {
      assert forall ws: seq<Decoded> :: [] + ws == ws;
    }
    while n < |es|
      invariant 0 <= n <= |es|
      invariant |values| == n
      invariant forall i :: 0 <= i < n ==> elements[i] == JNull
      invariant forall i :: n <= i < |es| ==> elements[i] == original[i]
      invariant forall i :: 0 <= i < n ==> Decode(original[i], es[i]).Ok?
      invariant DecodeElems(original, es, 0) == Prepend(values, DecodeElems(original, es, n))
    {
      var x := elements[n];
      elements[n] := JNull;
      var d := Decode(x, es[n]);
      if d.Err? {
        assert TakenPrefix(elements[..], original, n + 1);
        assert FirstFailure(original, es, n);
        return Err(Custom(d.error));
      }
      assert DecodeElems(original, es, n) == Prepend([d.value], DecodeElems(original, es, n + 1));
      assert forall ws :: values + ([d.value] + ws) == values + [d.value] + ws;
      values := values + [d.value];
      n := n + 1;
    }
    assert values + [] == values;
    r := Ok(From(values));
  }
}
