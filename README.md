# ITF decoding and trace conformance, in Dafny

This project models two parts of informal-itf-rs, a Rust library for the
Informal Trace Format (ITF). ITF is the JSON format in which the Apalache
model checker writes traces.

- **The ITF tagged-value decoder** (`apalache-itf/src/itf.rs`). A JSON node
  becomes a native value wrapped in the transparent `Itf<T>`:
  - `{"#set": [...]}` becomes a set;
  - `{"#map": [[k, v], ...]}` becomes a map;
  - a bare 64-bit number or `{"#bigint": "<decimal>"}` becomes an unbounded integer;
  - `{"#tup": [...]}` becomes a tuple of arity 2 to 12, arity checked first.

  Module `ItfDecode` (file `itf.dfy`) decodes an already parsed `Json` value
  (module `JsonValue`) against a `Shape`. The shape stands for the Rust type
  the caller asks for. Decoding returns a `Result<Decoded, DecodeError>`.
  - `DecodeSet`, `DecodeMap` and `DecodeBigInt` are functions, as in the source.
  - The tuple decoder is a function (`TupleFromElements`), plus a method
    `DecodeTupleInPlace`. The method moves elements out of an array one
    position at a time, as the macro does with `std::mem::take`. It is proved
    to compute exactly what the function specifies.
  - Module `Decimal` holds the decimal text of `#bigint` values.
  - Module `ItfProperties` proves the decoder's properties.

- **The trace runner** (`itf/src/runner.rs`). `Runner::test` checks an
  implementation against an expected trace, using four caller-supplied
  operations: `init`, `step`, `result_invariant` and `state_invariant`.
  - In module `TraceRunner` (`runner.dfy`), the operations are function
    values. `init` and `step` take `&mut self`, so they also take and return
    the runner's own state.
  - An `Err` returned through `?` is the outcome `Failed`. A failed `assert!`
    is the outcome `InvariantFailed(index, which)`.
  - `TestRun` specifies a run. It gives the outcome, the runner state
    afterwards, and a log of every call made, with its arguments and its
    return value.
  - The method `Test` is the source's loop. It is proved to produce exactly
    that specified run.
  - Module `RunnerProperties` proves properties of the run: call order, call
    count, fail-fast behaviour and the one threaded actual state.

Some behaviours of the decoder that a reader might not expect, all of which
the model keeps:
- **Extra keys.** The derived structs `Set`, `Map`, `BI` and `Tup` do not deny
  unknown fields. So an object holding the tag together with other keys is
  accepted, and the extra keys are ignored (see `StructField`).
- **Error context.** A failing element is not reported with its position.
  Set and map elements pass their error up unchanged. Tuple elements wrap it
  once, in `Custom`, as `Error::custom` does.
- **Array form of a tagged struct.** serde reads a derived one-field struct
  from a one-element JSON array as well as from an object. The model keeps
  that, so a one-element array `[xs]` is read like `{"#set": xs}`, and an
  array with elements after the field is a length error (`SetArrayForm`).
- **Untagged `IntOrBigInt`.** When neither a bare i64 nor a `#bigint` object
  applies, serde's untagged enum reports only that no variant matched. The
  model returns `NoVariantMatched` for every such failure.

## Model

| member | source | states |
|---|---|---|
| ItfDecode.Itf.Value | apalache-itf/src/itf.rs:40-44 | wrapping the unwrapped value gives back the same wrapper |
| ItfDecode.From | apalache-itf/src/itf.rs:46-50 | unwrapping a wrapped value gives back that value |
| ItfProperties.WrapperTransparent | apalache-itf/src/itf.rs:19-20 | `From(x).Value() == x`; two wrappers are equal iff their contents are |
| ItfDecode.Less | apalache-itf/src/itf.rs:19 | the derived `PartialOrd`/`Ord` of the one-field struct, which compares the contents; it has no contract of its own, and `ItfProperties.WrapperOrderInherited` states its property |
| ItfProperties.WrapperOrderInherited | apalache-itf/src/itf.rs:19 | when the order on the contents is a strict total order, so is the derived order on wrappers |
| ItfDecode.DecodeI64 | apalache-itf/src/itf.rs:15 | succeeds iff the node is a number within the signed 64-bit range, and then yields that number |
| ItfDecode.DecodeBool | apalache-itf/src/itf.rs:16 | succeeds iff the node is a boolean, and yields it |
| ItfDecode.DecodeString | apalache-itf/src/itf.rs:17 | succeeds iff the node is a string, and yields it |
| ItfDecode.StructField | apalache-itf/src/itf.rs:74-78 | on an object, the required renamed field is found iff its key is present; a missing key is `MissingField(tag)`; other keys are ignored; only objects and arrays can succeed |
| ItfDecode.NoSurplus | apalache-itf/src/itf.rs:74-80 | a field read from an object, or from an array of at most one element, keeps its result; an error is never replaced; a success read from an array with elements left over becomes `InvalidLength(length)`, and is otherwise unchanged |
| ItfProperties.SetArrayForm | apalache-itf/src/itf.rs:74-80 | a one-element array `[xs]` decodes exactly as `{"#set": xs}`; with elements after the field, a field that decodes gives `InvalidLength(length)`, and one that does not gives its own error |
| ItfDecode.Decode | apalache-itf/src/itf.rs:11-17 | dispatch on the requested type: a success is a value of the requested kind (an in-range integer for i64, a tuple of the right arity); `ItfProperties.DecodeHasShape` states the full type down to the components |
| ItfDecode.DecodeSet | apalache-itf/src/itf.rs:66-83 | an object without `#set` is a missing-field error; with a `#set` array it succeeds iff every element decodes; only objects and arrays succeed; `ItfProperties.SetDecodeExact` states the resulting set |
| ItfDecode.DecodeEach | apalache-itf/src/itf.rs:77 | a decoded vector has one value per element; `ItfProperties.DecodeEachSpec` states each value |
| ItfDecode.DecodeMap | apalache-itf/src/itf.rs:85-103 | an object without `#map` is a missing-field error; with a `#map` array it succeeds iff every pair decodes; only objects and arrays succeed; `ItfProperties.MapDecodeExact` states the resulting map |
| ItfDecode.DecodePairs | apalache-itf/src/itf.rs:97 | a decoded vector of pairs has one pair per element; `ItfProperties.DecodePairsSpec` states each pair |
| ItfDecode.DecodePair | apalache-itf/src/itf.rs:97 | a `(K, V)` element succeeds only as an array of exactly two elements, and an empty array is a length error; `ItfProperties.PairDecodeExact` states the iff |
| ItfDecode.DecodeBigInt | apalache-itf/src/itf.rs:105-130 | a number decodes iff it is in the i64 range, to itself; an object without `#bigint` matches no variant; every failure is `NoVariantMatched`; only numbers, objects and arrays succeed |
| ItfDecode.DecodeTuple | apalache-itf/src/itf.rs:132-162 | an object without `#tup` is a missing-field error; with a `#tup` array the result is that of the arity-checked element decoder; a success has exactly the requested arity |
| ItfDecode.TupleFromElements | apalache-itf/src/itf.rs:149-162 | a length other than the arity fails with the expected and found lengths; a success has the requested arity; with the right arity, every failure is an element error wrapped by `Error::custom` |
| ItfDecode.DecodeElems | apalache-itf/src/itf.rs:157-160 | from position k, a success has one value per remaining position, and every failure is wrapped by `Error::custom`; `ItfProperties.DecodeElemsSpec` states which position fails |
| ItfDecode.Collect | apalache-itf/src/itf.rs:101 | the keys of the collected map are exactly the first components of the pairs |
| ItfDecode.DecodeTupleInPlace | apalache-itf/src/itf.rs:149-162 | moving elements out one by one gives exactly the tuple decoder's result; on an arity mismatch no element is touched; on success every element was taken; on an element error at the first failing position p, exactly the elements 0..p were taken and no later one, and the error returned is p's error wrapped by `Error::custom` |
| Decimal.ParseDecimal | apalache-itf/src/itf.rs:112-113 | only an optional `-` followed by digits parses; a digit string parses to its decimal value, and `-` followed by a digit string to the negation of that value |
| Decimal.ParseToDecimal | apalache-itf/src/itf.rs:112-113 | parsing the canonical decimal text of any integer, of any magnitude, gives that integer back |
| ItfProperties.DecodeEachSpec | apalache-itf/src/itf.rs:77-80 | a vector decodes iff every element decodes; then the i-th value is the i-th element's value |
| ItfProperties.SetDecodeExact | apalache-itf/src/itf.rs:80-81 | `{"#set": xs}` decodes iff every element of xs decodes; then v is in the set iff some element of xs decodes to v |
| ItfProperties.SetOrderIrrelevant | apalache-itf/src/itf.rs:81 | two `#set` arrays with the same elements, in any order and with any repetition, decode to the same set, or both fail |
| ItfProperties.DecodeSetNode | apalache-itf/src/itf.rs:80-81 | when the elements decode, `{"#set": xs}` decodes to the set of their values |
| ItfProperties.SetExample | apalache-itf/src/itf.rs:186-196 | `{"#set": [1, 2, 3, 4]}` as a set of i64 is `{1, 2, 3, 4}`, and so is the same array with the 2 repeated |
| ItfProperties.CollectLastWins | apalache-itf/src/itf.rs:101 | a pair whose key does not occur again later gives that key's value in the collected map |
| ItfProperties.DecodePairsSpec | apalache-itf/src/itf.rs:97-100 | a vector of pairs decodes iff every pair decodes; then the i-th pair is the i-th element's pair |
| ItfProperties.PairDecodeExact | apalache-itf/src/itf.rs:97 | a `(K, V)` element decodes iff it is an array of exactly two elements whose first decodes as K and second as V, and it yields those two values |
| ItfProperties.MapDecodeExact | apalache-itf/src/itf.rs:100-101 | `{"#map": pairs}` decodes iff every pair decodes; the key set is the set of decoded first components; each key maps to the value of its last pair in array order |
| ItfProperties.DecodeMapNode | apalache-itf/src/itf.rs:100-101 | when the pairs decode, `{"#map": pairs}` decodes to the collection of those pairs |
| ItfProperties.TwoPairs | apalache-itf/src/itf.rs:198-210 | two string/i64 pairs decode to the map with the second pair's value for the second key, and the first pair's value for the first key when the keys differ |
| ItfProperties.MapExample | apalache-itf/src/itf.rs:198-210 | `{"#map": [["hello", 1], ["world", 2]]}` is exactly `{"hello": 1, "world": 2}` |
| ItfProperties.MapLastWinsExample | apalache-itf/src/itf.rs:101 | `{"#map": [["k", 1], ["k", 2]]}` is exactly `{"k": 2}` |
| ItfProperties.BigIntBareNumber | apalache-itf/src/itf.rs:117-127 | a bare number in the i64 range decodes to the same integer; a bare number outside it matches no variant |
| ItfProperties.BigIntTagged | apalache-itf/src/itf.rs:110-126 | `{"#bigint": t}` with t the decimal text of any integer, including ones beyond 64 bits, decodes to that integer |
| ItfProperties.BigIntAnyLiteral | apalache-itf/src/itf.rs:110-126 | `{"#bigint": t}` for any digit string t, leading zeros included, decodes to its value, and `{"#bigint": "-" + t}` to the negation |
| ItfProperties.BigIntFormsAgree | apalache-itf/src/itf.rs:116-127 | for n in the i64 range, the bare number and the tagged decimal text decode to the same value, namely n |
| ItfProperties.TupleArityChecked | apalache-itf/src/itf.rs:149-155 | a `#tup` array whose length differs from the arity fails with the expected arity and the found length, whatever its elements |
| ItfProperties.DecodeElemsSpec | apalache-itf/src/itf.rs:157-160 | the elements from position k on decode iff each decodes against its own positional type; on failure the error is that of the first failing position, wrapped once |
| ItfProperties.TuplePositional | apalache-itf/src/itf.rs:149-162 | with the right arity, a tuple decodes iff element i decodes as the i-th type for every i; it then yields those values in order; otherwise it fails with the first failing element's error and no partial result |
| ItfProperties.TupleExample | apalache-itf/src/itf.rs:230-253 | `{"#tup": [{"#bigint": text of big}, 1234, "Hello world", true]}` decodes to `(big, 1234, "Hello world", true)` for every integer big |
| ItfProperties.TupleArityExample | apalache-itf/src/itf.rs:151-155 | `{"#tup": [1, 2]}` requested as a triple fails with expected 3, found 2 |
| ItfProperties.MissingTagIsError | apalache-itf/src/itf.rs:74-136 | an object without the `#set`, `#map` or `#tup` key is a missing-field error for that key, and one without `#bigint` matches no BigInt variant; none defaults to an empty value |
| ItfProperties.DecodeHasShape | apalache-itf/src/itf.rs:11-17 | every successful decode yields a value of the requested type, down to the elements of sets, the keys and values of maps, and the positions of tuples |
| TraceRunner.TestRun | itf/src/runner.rs:27-52 | the specification of a run: an empty trace passes with no calls and the runner state unchanged; a non-empty trace makes at least one and at most 3·length − 1 calls; a failed invariant names an index within the trace |
| TraceRunner.Steps | itf/src/runner.rs:35-48 | the loop from index i makes at most three calls per remaining index; a failed invariant names an index from i up to the end of the trace; a run that does not pass made at least one call |
| TraceRunner.Start | itf/src/runner.rs:28-34 | `init` on trace[0] and the state invariant on its actual state: when the run stops there, the outcome (never a pass), runner state and calls are the specified ones; otherwise the rest of the specified run is the loop from index 1 on the actual state `init` made |
| TraceRunner.StepAt | itf/src/runner.rs:35-47 | one loop iteration at index i: when the run stops there, the outcome (never a pass), runner state and calls are those specified for the loop from i; otherwise the rest is the loop from i+1 on the stepped state |
| TraceRunner.Test | itf/src/runner.rs:27-52 | the loop returns exactly the specified outcome and runner state, and makes exactly the specified calls |
| RunnerProperties.EmptyTracePasses | itf/src/runner.rs:28-51 | an empty trace passes, leaves the runner state unchanged, and calls no operation |
| RunnerProperties.StepsSchedule | itf/src/runner.rs:35-48 | the loop from index i makes step, result check, state check for i, i+1, ... in that order, stopping early only on failure; each call gets the expected state of its own index |
| RunnerProperties.RunFollowsSchedule | itf/src/runner.rs:28-48 | the calls are a prefix of: init on trace[0], state check on 0, then step, result check, state check for each later index in increasing order; the whole schedule when the run passes; every call gets trace at its own index |
| RunnerProperties.StepsCount | itf/src/runner.rs:35-48 | a loop from index i that passes calls step once per remaining index |
| RunnerProperties.PassedStepCount | itf/src/runner.rs:35-51 | a passing run over a non-empty trace called step exactly length minus one times |
| RunnerProperties.StepsFailFast | itf/src/runner.rs:35-47 | in the loop, every call but the last succeeded, and the last explains the outcome |
| RunnerProperties.RunIsFailFast | itf/src/runner.rs:30-47 | every call but the last succeeded; a passing run had every operation return normally and every invariant return true; `Failed(e)` is the `Err(e)` the last call returned; `InvariantFailed(i, w)` is the last call, the check of w at i returning false |
| RunnerProperties.NothingAfterFailure | itf/src/runner.rs:31-47 | after an invariant fails at index i (within the trace), no call concerns a later index, so no later step runs |
| RunnerProperties.StepsThreaded | itf/src/runner.rs:35-47 | in the loop, each step and state check gets the actual state the previous step left, and each result check gets the result of the step just before it |
| RunnerProperties.RunIsThreaded | itf/src/runner.rs:30-44 | one actual state threads through the run: the one init made goes to the first state check and the first step; each step's new state goes to the next state check and the next step; each result check gets its step's result |
| RunnerProperties.ThreeStateExample | itf/src/runner.rs:35-47 | with three expected states and the state invariant false on the second, the run fails at index 1 with the state invariant, and step is never called for the third state |

## Left out

- Parsing JSON text, and serde's deserializer machinery. Decoding starts from an already parsed `Json` value. JSON numbers are integers only; floating-point numbers are not modelled.
- Decimal.ParseDecimal: accepts exactly an optional `-` followed by digits. The BigInt `FromStr` implementation also accepts forms such as a leading `+` or `_` separators. The helper `crate::util::serde::display_from_str` is not part of this model.
- The text of error messages, for example "expected tuple with N elements but found M". The model keeps the kind of each error and its numbers.
- When a derived struct is read from a JSON array, serde's exact error for surplus elements is modelled only as `InvalidLength(length)`.
- `Debug`, `Display`, `Deref`, `DerefMut` and `Default` of `Itf<T>`. They only forward to the inner value.
- Hashing. Sets and maps are Dafny `set` and `map`, and a set element or map key must be a hashable type.
- Tuple arities outside 2 to 12. The source implements no others, and `ValidShape` excludes them.
- The `println!` progress lines of `test`. They are console output.
- Panic unwinding. A failed `assert!` is the outcome `InvariantFailed(index, which)` rather than a panic. The runner's state after a panic is the state at that point.
- The 31-digit literal of the source's BigInt and tuple tests. It is covered generically: `BigIntTagged` and `TupleExample` hold for every integer, of any magnitude.
