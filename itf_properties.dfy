/** What the decoders of apalache-itf/src/itf.rs promise: set semantics, map
    semantics with the last pair winning, agreement of the two BigInt forms,
    the tuple arity check and positional decoding, required tags, the shape of
    every decoded value, and the transparency of the wrapper. */
module ItfProperties {
  import opened Wrappers
  import opened JsonValue
  import opened Decimal
  import opened ItfDecode

  /** `{"#set": xs}` */
  function SetNode(xs: seq<Json>): Json {
    JObj(map["#set" := JArr(xs)])
  }

  /** `{"#map": pairs}` */
  function MapNode(pairs: seq<Json>): Json {
    JObj(map["#map" := JArr(pairs)])
  }

  /** `{"#tup": xs}` */
  function TupNode(xs: seq<Json>): Json {
    JObj(map["#tup" := JArr(xs)])
  }

  /** `{"#bigint": t}` */
  function BigIntNode(t: string): Json {
    JObj(map["#bigint" := JStr(t)])
  }

  // ---------------------------------------------------------------------------
  // The wrapper
  // ---------------------------------------------------------------------------

  /** Wrapping then unwrapping gives the value back; wrappers are equal
      exactly when their contents are. */
  lemma WrapperTransparent<T>(x: T, y: T)
    ensures From(x).Value() == x
    ensures From(x) == From(y) <==> x == y
  {
  }

  /** `Less` is the derived order: it inherits being a strict total order
      from the order on the contents. */
  lemma WrapperOrderInherited<T>(innerLess: (T, T) -> bool)
    requires forall x :: !innerLess(x, x)
    requires forall x, y, z :: innerLess(x, y) && innerLess(y, z) ==> innerLess(x, z)
    requires forall x, y :: x == y || innerLess(x, y) || innerLess(y, x)
    ensures forall a :: !Less(innerLess, a, a)
    ensures forall a, b, c :: Less(innerLess, a, b) && Less(innerLess, b, c) ==> Less(innerLess, a, c)
    ensures forall a, b :: a == b || Less(innerLess, a, b) || Less(innerLess, b, a)
  {
    forall a: Itf<T>, b: Itf<T> | a != b
      ensures Less(innerLess, a, b) || Less(innerLess, b, a)
    {
      assert a.inner != b.inner;
    }
  }

  // ---------------------------------------------------------------------------
  // Vectors: element i of the result is element i decoded
  // ---------------------------------------------------------------------------

  lemma {:induction false} DecodeEachSpec(items: seq<Json>, e: Shape)
    requires ValidShape(SetOf(e))
    ensures DecodeEach(items, e).Ok? <==> forall i :: 0 <= i < |items| ==> Decode(items[i], e).Ok?
    ensures DecodeEach(items, e).Ok? ==>
      |DecodeEach(items, e).value| == |items| &&
      forall i :: 0 <= i < |items| ==> DecodeEach(items, e).value[i] == Decode(items[i], e).value
    decreases |items|
  {
    if items != [] {
      DecodeEachSpec(items[1..], e);
      assert forall i :: 1 <= i < |items| ==> items[1..][i - 1] == items[i];
    }
  }

  // ---------------------------------------------------------------------------
  // Sets
  // ---------------------------------------------------------------------------

  /** `{"#set": xs}` decodes exactly when every element does, and then to the
      set of the decoded elements. */
  lemma SetDecodeExact(j: Json, xs: seq<Json>, e: Shape)
    requires ValidShape(SetOf(e))
    requires j.JObj? && "#set" in j.fields && j.fields["#set"] == JArr(xs)
    ensures DecodeSet(j, e).Ok? <==> forall x :: x in xs ==> Decode(x, e).Ok?
    ensures DecodeSet(j, e).Ok? ==>
      forall v :: v in DecodeSet(j, e).value.Value() <==> exists x :: x in xs && Decode(x, e) == Ok(v)
  {
    DecodeEachSpec(xs, e);
    if DecodeSet(j, e).Ok? {
      var vs := DecodeEach(xs, e).value;
      assert DecodeSet(j, e).value.Value() == set v | v in vs;
      forall v
        ensures v in DecodeSet(j, e).value.Value() <==> exists x :: x in xs && Decode(x, e) == Ok(v)
      {
        if v in vs {
          var i :| 0 <= i < |vs| && vs[i] == v;
          assert xs[i] in xs && Decode(xs[i], e) == Ok(v);
        }
        if exists x :: x in xs && Decode(x, e) == Ok(v) {
          var x :| x in xs && Decode(x, e) == Ok(v);
          var i :| 0 <= i < |xs| && xs[i] == x;
          assert vs[i] == v;
        }
      }
    } else {
      assert !forall i :: 0 <= i < |xs| ==> Decode(xs[i], e).Ok?;
    }
  }

  /** Input order and repetitions do not matter: two arrays holding the same
      JSON elements decode to the same set (or both fail). */
  lemma SetOrderIrrelevant(xs: seq<Json>, ys: seq<Json>, e: Shape)
    requires ValidShape(SetOf(e))
    requires forall x :: x in xs <==> x in ys
    ensures DecodeSet(SetNode(xs), e).Ok? <==> DecodeSet(SetNode(ys), e).Ok?
    ensures DecodeSet(SetNode(xs), e).Ok? ==> DecodeSet(SetNode(xs), e) == DecodeSet(SetNode(ys), e)
  {
    SetDecodeExact(SetNode(xs), xs, e);
    SetDecodeExact(SetNode(ys), ys, e);
    if DecodeSet(SetNode(xs), e).Ok? {
      var a := DecodeSet(SetNode(xs), e).value.Value();
      var b := DecodeSet(SetNode(ys), e).value.Value();
      assert forall v :: v in a <==> v in b;
      assert a == b;
    }
  }

  /** Unfolding `Decode` on `{"#set": xs}`. */
  lemma DecodeSetNode(xs: seq<Json>, e: Shape)
    requires ValidShape(SetOf(e))
    ensures DecodeEach(xs, e).Ok? ==>
      Decode(SetNode(xs), SetOf(e)) == Ok(SetV(From(set v | v in DecodeEach(xs, e).value)))
  {
    assert StructField(SetNode(xs), "#set") == Ok(FromObject(JArr(xs)));
    if DecodeEach(xs, e).Ok? {
      assert DecodeSet(SetNode(xs), e) == Ok(From(set v | v in DecodeEach(xs, e).value));
    }
  }

  /** The array form of the derived struct `Set`: a one-element array `[xs]`
      is read like `{"#set": xs}`, and an array with elements after the field
      is a length error once the field itself decodes. */
  lemma SetArrayForm(xs: seq<Json>, rest: seq<Json>, e: Shape)
    requires ValidShape(SetOf(e))
    ensures Decode(JArr([JArr(xs)]), SetOf(e)) == Decode(SetNode(xs), SetOf(e))
    ensures DecodeEach(xs, e).Ok? && |rest| > 0 ==>
      Decode(JArr([JArr(xs)] + rest), SetOf(e)) == Err(InvalidLength(1 + |rest|))
    ensures DecodeEach(xs, e).Err? ==>
      Decode(JArr([JArr(xs)] + rest), SetOf(e)) == Err(DecodeEach(xs, e).error)
  {
    assert StructField(SetNode(xs), "#set") == Ok(FromObject(JArr(xs)));
    assert StructField(JArr([JArr(xs)]), "#set") == Ok(FromArray(JArr(xs), 1));
    assert StructField(JArr([JArr(xs)] + rest), "#set") == Ok(FromArray(JArr(xs), 1 + |rest|));
  }

  /** `{"#set": [1, 2, 3, 4]}` as a set of i64 is `{1, 2, 3, 4}`, and so is
      the same array with a duplicate 2. */
  lemma SetExample()
    ensures Decode(SetNode([JNum(1), JNum(2), JNum(3), JNum(4)]), SetOf(I64))
         == Ok(SetV(From({Int(1), Int(2), Int(3), Int(4)})))
    ensures Decode(SetNode([JNum(1), JNum(2), JNum(2), JNum(3), JNum(4)]), SetOf(I64))
         == Ok(SetV(From({Int(1), Int(2), Int(3), Int(4)})))
  {
    SetOrderIrrelevant([JNum(1), JNum(2), JNum(3), JNum(4)], [JNum(1), JNum(2), JNum(2), JNum(3), JNum(4)], I64);
    var xs := [JNum(1), JNum(2), JNum(2), JNum(3), JNum(4)];
    var vs := [Int(1), Int(2), Int(2), Int(3), Int(4)];
    assert forall i :: 0 <= i < |xs| ==> Decode(xs[i], I64) == Ok(vs[i]);
    DecodeEachSpec(xs, I64);
    assert DecodeEach(xs, I64).value == vs;
    DecodeSetNode(xs, I64);
    assert (set v | v in vs) == {Int(1), Int(2), Int(3), Int(4)};
  }

  // ---------------------------------------------------------------------------
  // Maps
  // ---------------------------------------------------------------------------

  /** For a key whose last occurrence is pair i, the collected map holds the
      value of pair i: the last write wins. */
  lemma {:induction false} CollectLastWins(ps: seq<(Decoded, Decoded)>, i: nat)
    requires i < |ps|
    requires forall j :: i < j < |ps| ==> ps[j].0 != ps[i].0
    ensures ps[i].0 in Collect(ps) && Collect(ps)[ps[i].0] == ps[i].1
    decreases |ps|
  {
    if i < |ps| - 1 {
      var init := ps[..|ps| - 1];
      CollectLastWins(init, i);
    }
  }

  /** Every pair of a vector of pairs is the pair decoded at that position. */
  lemma {:induction false} DecodePairsSpec(items: seq<Json>, k: Shape, v: Shape)
    requires ValidShape(MapOf(k, v))
    ensures DecodePairs(items, k, v).Ok? <==> forall i :: 0 <= i < |items| ==> DecodePair(items[i], k, v).Ok?
    ensures DecodePairs(items, k, v).Ok? ==>
      |DecodePairs(items, k, v).value| == |items| &&
      forall i :: 0 <= i < |items| ==> DecodePairs(items, k, v).value[i] == DecodePair(items[i], k, v).value
    decreases |items|
  {
    if items != [] {
      DecodePairsSpec(items[1..], k, v);
      assert forall i :: 1 <= i < |items| ==> items[1..][i - 1] == items[i];
    }
  }

  /** A pair decodes exactly when it is a two-element array whose key and value
      decode. */
  lemma PairDecodeExact(x: Json, k: Shape, v: Shape)
    requires ValidShape(MapOf(k, v))
    ensures DecodePair(x, k, v).Ok? <==>
      x.JArr? && |x.items| == 2 && Decode(x.items[0], k).Ok? && Decode(x.items[1], v).Ok?
    ensures DecodePair(x, k, v).Ok? ==>
      DecodePair(x, k, v).value == (Decode(x.items[0], k).value, Decode(x.items[1], v).value)
  {
  }

  /** `{"#map": pairs}` decodes exactly when every pair does; the keys are the
      decoded first components, and a key's value comes from its last pair. */
  lemma MapDecodeExact(j: Json, items: seq<Json>, k: Shape, v: Shape)
    requires ValidShape(MapOf(k, v))
    requires j.JObj? && "#map" in j.fields && j.fields["#map"] == JArr(items)
    ensures DecodeMap(j, k, v).Ok? <==> forall i :: 0 <= i < |items| ==> DecodePair(items[i], k, v).Ok?
    ensures DecodeMap(j, k, v).Ok? ==>
      DecodeMap(j, k, v).value.Value().Keys == set i | 0 <= i < |items| :: DecodePair(items[i], k, v).value.0
    ensures DecodeMap(j, k, v).Ok? ==>
      forall i :: (0 <= i < |items| &&
                   forall n :: i < n < |items| ==> DecodePair(items[n], k, v).value.0 != DecodePair(items[i], k, v).value.0) ==>
        DecodeMap(j, k, v).value.Value()[DecodePair(items[i], k, v).value.0] == DecodePair(items[i], k, v).value.1
  {
    DecodePairsSpec(items, k, v);
    assert StructField(j, "#map") == Ok(FromObject(JArr(items)));
    if DecodePairs(items, k, v).Ok? {
      var ps := DecodePairs(items, k, v).value;
      assert DecodeMap(j, k, v) == Ok(From(Collect(ps)));
      KeysOfPairs(items, ps, k, v);
      forall i | 0 <= i < |items| &&
        forall n :: i < n < |items| ==> DecodePair(items[n], k, v).value.0 != DecodePair(items[i], k, v).value.0
        ensures Collect(ps)[ps[i].0] == ps[i].1
      {
        CollectLastWins(ps, i);
      }
    }
  }

  lemma KeysOfPairs(items: seq<Json>, ps: seq<(Decoded, Decoded)>, k: Shape, v: Shape)
    requires ValidShape(MapOf(k, v))
    requires |ps| == |items|
    requires forall i :: 0 <= i < |items| ==> DecodePair(items[i], k, v) == Ok(ps[i])
    ensures (set i | 0 <= i < |ps| :: ps[i].0) == set i | 0 <= i < |items| :: DecodePair(items[i], k, v).value.0
  {
  }

  /** Unfolding `Decode` on `{"#map": pairs}`. */
  lemma DecodeMapNode(items: seq<Json>, k: Shape, v: Shape)
    requires ValidShape(MapOf(k, v))
    ensures DecodePairs(items, k, v).Ok? ==>
      Decode(MapNode(items), MapOf(k, v)) == Ok(MapV(From(Collect(DecodePairs(items, k, v).value))))
  {
    assert StructField(MapNode(items), "#map") == Ok(FromObject(JArr(items)));
    if DecodePairs(items, k, v).Ok? {
      assert DecodeMap(MapNode(items), k, v) == Ok(From(Collect(DecodePairs(items, k, v).value)));
    }
  }

  /** Two pairs of a string and an i64, decoded and collected. */
  lemma TwoPairs(k1: string, n1: int, k2: string, n2: int)
    requires InI64(n1) && InI64(n2)
    ensures Decode(MapNode([JArr([JStr(k1), JNum(n1)]), JArr([JStr(k2), JNum(n2)])]), MapOf(Text, I64))
         == Ok(MapV(From(map[Str(k1) := Int(n1)][Str(k2) := Int(n2)])))
  {
    var items := [JArr([JStr(k1), JNum(n1)]), JArr([JStr(k2), JNum(n2)])];
    var ps := [(Str(k1), Int(n1)), (Str(k2), Int(n2))];
    PairDecodeExact(items[0], Text, I64);
    PairDecodeExact(items[1], Text, I64);
    assert forall i :: 0 <= i < 2 ==> DecodePair(items[i], Text, I64) == Ok(ps[i]);
    DecodePairsSpec(items, Text, I64);
    assert DecodePairs(items, Text, I64).value == ps;
    assert ps[..1] == [ps[0]] && [ps[0]][..0] == [];
    assert Collect(ps) == map[Str(k1) := Int(n1)][Str(k2) := Int(n2)];
    DecodeMapNode(items, Text, I64);
  }

  /** `{"#map": [["hello", 1], ["world", 2]]}` as a map from strings to i64. */
  lemma MapExample()
    ensures Decode(MapNode([JArr([JStr("hello"), JNum(1)]), JArr([JStr("world"), JNum(2)])]), MapOf(Text, I64))
         == Ok(MapV(From(map[Str("hello") := Int(1), Str("world") := Int(2)])))
  {
    TwoPairs("hello", 1, "world", 2);
  }

  /** `{"#map": [["k", 1], ["k", 2]]}`: one entry, the later value. */
  lemma MapLastWinsExample()
    ensures Decode(MapNode([JArr([JStr("k"), JNum(1)]), JArr([JStr("k"), JNum(2)])]), MapOf(Text, I64))
         == Ok(MapV(From(map[Str("k") := Int(2)])))
  {
    TwoPairs("k", 1, "k", 2);
    assert map[Str("k") := Int(1)][Str("k") := Int(2)] == map[Str("k") := Int(2)];
  }

  // ---------------------------------------------------------------------------
  // BigInt
  // ---------------------------------------------------------------------------

  /** A bare number within 64 bits decodes to itself; one outside does not
      decode at all. */
  lemma BigIntBareNumber(n: int)
    ensures InI64(n) ==> DecodeBigInt(JNum(n)) == Ok(From(n))
    ensures !InI64(n) ==> DecodeBigInt(JNum(n)) == Err(NoVariantMatched)
  {
  }

  /** `{"#bigint": s}` decodes to the value of s, whatever its magnitude. */
  lemma BigIntTagged(n: int)
    ensures DecodeBigInt(BigIntNode(ToDecimal(n))) == Ok(From(n))
  {
    ParseToDecimal(n);
  }

  /** `{"#bigint": t}` for any digit string t, leading zeros allowed, decodes
      to the value of its digits, and `{"#bigint": "-" + t}` to its negation. */
  lemma BigIntAnyLiteral(t: string)
    requires AllDigits(t)
    ensures DecodeBigInt(BigIntNode(t)) == Ok(From(DigitsValue(t) as int))
    ensures DecodeBigInt(BigIntNode("-" + t)) == Ok(From(-(DigitsValue(t) as int)))
  {
    assert ("-" + t)[1..] == t;
  }

  /** Within 64 bits, the two encodings of an integer decode equal. */
  lemma BigIntFormsAgree(n: int)
    requires InI64(n)
    ensures DecodeBigInt(JNum(n)) == DecodeBigInt(BigIntNode(ToDecimal(n)))
    ensures Decode(JNum(n), BigInt) == Ok(Big(From(n)))
  {
    BigIntTagged(n);
  }

  // ---------------------------------------------------------------------------
  // Tuples
  // ---------------------------------------------------------------------------

  /** An array of the wrong length fails with the expected and found arity. */
  lemma TupleArityChecked(xs: seq<Json>, es: seq<Shape>)
    requires ValidShape(TupleOf(es))
    requires |xs| != |es|
    ensures Decode(TupNode(xs), TupleOf(es)) == Err(TupleArity(|es|, |xs|))
  {
    assert StructField(TupNode(xs), "#tup") == Ok(FromObject(JArr(xs)));
    assert DecodeTuple(TupNode(xs), es) == TupleFromElements(xs, es);
  }

  /** From position k on: every element decodes as its own type, or the first
      one that does not decides the error. */
  lemma {:induction false} DecodeElemsSpec(items: seq<Json>, es: seq<Shape>, k: nat)
    requires ValidShape(TupleOf(es))
    requires |items| == |es| && k <= |es|
    ensures DecodeElems(items, es, k).Ok? <==> forall i :: k <= i < |es| ==> Decode(items[i], es[i]).Ok?
    ensures DecodeElems(items, es, k).Ok? ==>
      |DecodeElems(items, es, k).value| == |es| - k &&
      forall i :: k <= i < |es| ==> DecodeElems(items, es, k).value[i - k] == Decode(items[i], es[i]).value
    ensures DecodeElems(items, es, k).Err? ==>
      exists p :: k <= p < |es| && Decode(items[p], es[p]).Err? &&
        (forall i :: k <= i < p ==> Decode(items[i], es[i]).Ok?) &&
        DecodeElems(items, es, k) == Err(Custom(Decode(items[p], es[p]).error))
    decreases |es| - k
  {
    if k < |es| {
      DecodeElemsSpec(items, es, k + 1);
    }
  }

  /** `{"#tup": xs}` of the right arity: element i of the tuple is element i of
      xs decoded as the i-th type; the first failing element aborts the whole
      tuple with its error. */
  lemma TuplePositional(xs: seq<Json>, es: seq<Shape>)
    requires ValidShape(TupleOf(es))
    requires |xs| == |es|
    ensures DecodeTuple(TupNode(xs), es).Ok? <==> forall i :: 0 <= i < |es| ==> Decode(xs[i], es[i]).Ok?
    ensures DecodeTuple(TupNode(xs), es).Ok? ==>
      |DecodeTuple(TupNode(xs), es).value.Value()| == |es| &&
      forall i :: 0 <= i < |es| ==> DecodeTuple(TupNode(xs), es).value.Value()[i] == Decode(xs[i], es[i]).value
    ensures DecodeTuple(TupNode(xs), es).Err? ==>
      exists p :: 0 <= p < |es| && Decode(xs[p], es[p]).Err? &&
        (forall i :: 0 <= i < p ==> Decode(xs[i], es[i]).Ok?) &&
        DecodeTuple(TupNode(xs), es) == Err(Custom(Decode(xs[p], es[p]).error))
  {
    DecodeElemsSpec(xs, es, 0);
  }

  /** The shape of the source's tuple test: a BigInt (there, one beyond 64
      bits, given by its decimal text), an i64, a string and a boolean. */
  lemma TupleExample(big: int)
    ensures Decode(TupNode([BigIntNode(ToDecimal(big)), JNum(1234), JStr("Hello world"), JBool(true)]),
                   TupleOf([BigInt, I64, Text, Boolean]))
         == Ok(Tuple(From([Big(From(big)), Int(1234), Str("Hello world"), Bool(true)])))
  {
    var xs := [BigIntNode(ToDecimal(big)), JNum(1234), JStr("Hello world"), JBool(true)];
    var es := [BigInt, I64, Text, Boolean];
    var vs := [Big(From(big)), Int(1234), Str("Hello world"), Bool(true)];
    BigIntTagged(big);
    assert forall i :: 0 <= i < 4 ==> Decode(xs[i], es[i]) == Ok(vs[i]);
    TuplePositional(xs, es);
    assert DecodeTuple(TupNode(xs), es).value.Value() == vs;
  }

  /** `{"#tup": [1, 2]}` as a triple: expected 3, found 2. */
  lemma TupleArityExample()
    ensures Decode(TupNode([JNum(1), JNum(2)]), TupleOf([I64, I64, I64])) == Err(TupleArity(3, 2))
  {
  }

  // ---------------------------------------------------------------------------
  // Required tags
  // ---------------------------------------------------------------------------

  /** An object without the required tag is an error, never an empty value. */
  lemma MissingTagIsError(fields: map<string, Json>, s: Shape)
    requires ValidShape(s)
    ensures s.SetOf? && "#set" !in fields ==> Decode(JObj(fields), s) == Err(MissingField("#set"))
    ensures s.MapOf? && "#map" !in fields ==> Decode(JObj(fields), s) == Err(MissingField("#map"))
    ensures s.TupleOf? && "#tup" !in fields ==> Decode(JObj(fields), s) == Err(MissingField("#tup"))
    ensures s.BigInt? && "#bigint" !in fields ==> Decode(JObj(fields), s) == Err(NoVariantMatched)
  {
  }

  // ---------------------------------------------------------------------------
  // Every decoded value has the shape asked for
  // ---------------------------------------------------------------------------

  lemma {:induction false} DecodeHasShape(j: Json, s: Shape)
    requires ValidShape(s)
    ensures Decode(j, s).Ok? ==> HasShape(Decode(j, s).value, s)
    decreases s, 2, 0
  {
    match s
    case SetOf(e) =>
      var f := StructField(j, "#set");
      if f.Ok? && f.value.payload.JArr? {
        EachHasShape(f.value.payload.items, e);
      }
    case MapOf(k, v) =>
      var f := StructField(j, "#map");
      if f.Ok? && f.value.payload.JArr? {
        var items := f.value.payload.items;
        PairsHaveShape(items, k, v);
        if DecodePairs(items, k, v).Ok? {
          CollectFrom(DecodePairs(items, k, v).value, k, v);
        }
      }
    case TupleOf(es) =>
      if DecodeTuple(j, es).Ok? {
        var f := StructField(j, "#tup");
        assert f.Ok? && f.value.payload.JArr?;
        var items := f.value.payload.items;
        assert TupleFromElements(items, es).Ok?;
        ElemsHaveShape(items, es, 0);
        assert DecodeTuple(j, es).value.inner == DecodeElems(items, es, 0).value;
      }
    case _ =>
  }

  lemma {:induction false} EachHasShape(items: seq<Json>, e: Shape)
    requires ValidShape(SetOf(e))
    ensures DecodeEach(items, e).Ok? ==> forall i :: 0 <= i < |DecodeEach(items, e).value| ==> HasShape(DecodeEach(items, e).value[i], e)
    decreases SetOf(e), 0, |items|
  {
    if items != [] {
      DecodeHasShape(items[0], e);
      EachHasShape(items[1..], e);
    }
  }

  lemma {:induction false} PairsHaveShape(items: seq<Json>, k: Shape, v: Shape)
    requires ValidShape(MapOf(k, v))
    ensures DecodePairs(items, k, v).Ok? ==>
      forall i :: 0 <= i < |DecodePairs(items, k, v).value| ==>
        HasShape(DecodePairs(items, k, v).value[i].0, k) && HasShape(DecodePairs(items, k, v).value[i].1, v)
    decreases MapOf(k, v), 0, |items|
  {
    if items != [] {
      var x := items[0];
      if x.JArr? && |x.items| >= 2 {
        DecodeHasShape(x.items[0], k);
        DecodeHasShape(x.items[1], v);
      }
      PairsHaveShape(items[1..], k, v);
    }
  }

  /** Every key of a collected map is a first component, and every value the
      second component of some pair. */
  lemma {:induction false} CollectFrom(ps: seq<(Decoded, Decoded)>, k: Shape, v: Shape)
    requires forall i :: 0 <= i < |ps| ==> HasShape(ps[i].0, k) && HasShape(ps[i].1, v)
    ensures forall x :: x in Collect(ps) ==> HasShape(x, k) && HasShape(Collect(ps)[x], v)
    decreases |ps|
  {
    if ps != [] {
      CollectFrom(ps[..|ps| - 1], k, v);
    }
  }

  lemma {:induction false} ElemsHaveShape(items: seq<Json>, es: seq<Shape>, n: nat)
    requires ValidShape(TupleOf(es))
    requires |items| == |es| && n <= |es|
    ensures DecodeElems(items, es, n).Ok? ==>
      |DecodeElems(items, es, n).value| == |es| - n &&
      forall i :: n <= i < |es| ==> HasShape(DecodeElems(items, es, n).value[i - n], es[i])
    decreases TupleOf(es), 0, |es| - n
  {
    if n < |es| {
      DecodeHasShape(items[n], es[n]);
      ElemsHaveShape(items, es, n + 1);
    }
  }
}
