/** The guard checks that MultiMAC runs before any hashing. Each check either
    accepts its argument (`Ok(())`) or raises one named error; none of them
    changes anything, so they are functions. */
module ParameterValidation {
  import opened Wrappers

  newtype byte = b: int | 0 <= b < 256

  /** A `byte[]` reference: `None` is a null reference. */
  type Bytes = Option<seq<byte>>

  /** The kinds of argument exception the checks raise. */
  datatype Error =
    | MissingKey        // a key is null
    | InvalidKeyLength  // a key's length differs from the required one
    | MissingInputs     // the input collection is null
    | MissingInput      // an element of the input collection is null
    | EmptyInput        // an element of the input collection has no bytes
    | MissingTag        // the tag is null
    | InvalidTagLength  // the tag's length is not an admissible tag length

  /** The members of the `TagLength` enumeration, in bytes: the digest sizes
      of BLAKE2b-256, BLAKE2b-384 and BLAKE2b-512. */
  const BLAKE2b256: nat := 32
  const BLAKE2b384: nat := 48
  const BLAKE2b512: nat := 64

  predicate IsTagLength(n: int) {
    n == BLAKE2b256 || n == BLAKE2b384 || n == BLAKE2b512
  }

  type TagLength = n: nat | IsTagLength(n) witness BLAKE2b256

  // What each check accepts, stated independently of the order of its tests.

  predicate AcceptableKey(key: Bytes, validKeyLength: int) {
    key.Some? && |key.value| == validKeyLength
  }

  predicate AcceptableInput(input: Bytes) {
    input.Some? && |input.value| > 0
  }

  predicate AllAcceptable(inputs: seq<Bytes>) {
    forall i | 0 <= i < |inputs| :: AcceptableInput(inputs[i])
  }

  predicate AcceptableInputs(inputs: Option<seq<Bytes>>) {
    inputs.Some? && AllAcceptable(inputs.value)
  }

  predicate AcceptableTag(tag: Bytes) {
    tag.Some? && IsTagLength(|tag.value|)
  }

  /** `i` is the position of the first element of `inputs` that is rejected. */
  predicate FirstRejected(inputs: seq<Bytes>, i: int) {
    && 0 <= i < |inputs|
    && !AcceptableInput(inputs[i])
    && forall j | 0 <= j < i :: AcceptableInput(inputs[j])
  }

  /** The error a rejected element raises: a null element is reported as
      missing even though it has no length either. */
  function RejectionOf(input: Bytes): Error {
    if input.None? then MissingInput else EmptyInput
  }

  /** Checks a key: null first, then its length. */
  function Key(key: Bytes, validKeyLength: int): (r: Result<(), Error>)
    ensures r.Ok? <==> AcceptableKey(key, validKeyLength)
    ensures key.None? ==> r == Err(MissingKey)
    ensures key.Some? && |key.value| != validKeyLength ==> r == Err(InvalidKeyLength)
  {
    if key.None? then Err(MissingKey)
    else if |key.value| != validKeyLength then Err(InvalidKeyLength)
    else Ok(())
  }

  /** The `foreach` over the elements of the input collection: each element
      is tested for null and then for emptiness, in list order. */
  function CheckElements(inputs: seq<Bytes>): (r: Result<(), Error>)
    ensures r.Ok? <==> AllAcceptable(inputs)
    ensures r.Err? ==> r.error == MissingInput || r.error == EmptyInput
  {
    if inputs == [] then Ok(())
    else if inputs[0].None? then Err(MissingInput)
    else if |inputs[0].value| == 0 then Err(EmptyInput)
    else
      var r := CheckElements(inputs[1..]);
      assert AllAcceptable(inputs[1..]) ==> AllAcceptable(inputs) by {
        if AllAcceptable(inputs[1..]) {
          forall i | 1 <= i < |inputs| ensures AcceptableInput(inputs[i]) {
            assert inputs[i] == inputs[1..][i - 1];
          }
        }
      }
      r
  }

  /** The error `CheckElements` reports is the one of the first rejected
      element. */
  lemma {:induction false} CheckElementsReportsFirst(inputs: seq<Bytes>, i: int)
    requires FirstRejected(inputs, i)
    ensures CheckElements(inputs) == Err(RejectionOf(inputs[i]))
  {
    if i > 0 {
      assert AcceptableInput(inputs[0]);
      assert FirstRejected(inputs[1..], i - 1) by {
        forall j | 0 <= j < i - 1 ensures AcceptableInput(inputs[1..][j]) {
          assert inputs[1..][j] == inputs[j + 1];
        }
      }
      CheckElementsReportsFirst(inputs[1..], i - 1);
    }
  }

  /** Checks the input collection: null first, then every element in order. */
  function Inputs(inputs: Option<seq<Bytes>>): (r: Result<(), Error>)
    ensures r.Ok? <==> AcceptableInputs(inputs)
    ensures inputs.None? ==> r == Err(MissingInputs)
    ensures inputs.Some? ==> forall i | FirstRejected(inputs.value, i) :: r == Err(RejectionOf(inputs.value[i]))
  {
    if inputs.None? then Err(MissingInputs)
    else
      var elements := inputs.value;
      assert forall i | FirstRejected(elements, i) :: CheckElements(elements) == Err(RejectionOf(elements[i])) by {
        forall i | FirstRejected(elements, i) ensures CheckElements(elements) == Err(RejectionOf(elements[i])) {
          CheckElementsReportsFirst(elements, i);
        }
      }
      CheckElements(elements)
  }

  /** Checks a tag: null first, then that its length is one of the three
      admissible tag lengths. */
  function Tag(tag: Bytes): (r: Result<(), Error>)
    ensures r.Ok? <==> AcceptableTag(tag)
    ensures tag.None? ==> r == Err(MissingTag)
    ensures tag.Some? && !IsTagLength(|tag.value|) ==> r == Err(InvalidTagLength)
  {
    if tag.None? then Err(MissingTag)
    else if |tag.value| != BLAKE2b256 && |tag.value| != BLAKE2b384 && |tag.value| != BLAKE2b512 then Err(InvalidTagLength)
    else Ok(())
  }
}
