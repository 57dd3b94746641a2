/** The chained MAC: the inputs are folded left to right through a keyed hash,
    each hash output becoming the key of the next call, starting from `key1`;
    the chain value is then hashed once more under `key2`. */
module MultiMac {
  import opened Wrappers
  import opened ParameterValidation

  /** Keyed BLAKE2b, `hash(message, key, outputLength)`, supplied by a
      cryptographic library and left abstract: all the model knows of it is
      that it returns `outputLength` bytes. */
  type KeyedHash = hash: (seq<byte>, seq<byte>, nat) -> seq<byte>
    | forall message, key, n :: |hash(message, key, n)| == n
    witness (message: seq<byte>, key: seq<byte>, n: nat) => seq<byte>(n, _ => 0)

  /** The chain value after absorbing `messages` in order, starting from the
      accumulator `acc`: `acc := hash(message, acc, n)` for each message. */
  function Chain(hash: KeyedHash, acc: seq<byte>, messages: seq<seq<byte>>, n: nat): (r: seq<byte>)
    ensures messages == [] ==> r == acc
    ensures messages != [] ==> |r| == n
    decreases |messages|
  {
    if messages == [] then acc
    else Chain(hash, hash(messages[0], acc, n), messages[1..], n)
  }


  /** The byte arrays of an input collection whose elements are all non-null. */
  function Messages(inputs: seq<Bytes>): (messages: seq<seq<byte>>)
    requires forall i | 0 <= i < |inputs| :: inputs[i].Some?
    ensures |messages| == |inputs|
    ensures forall i | 0 <= i < |inputs| :: inputs[i] == Some(messages[i])
  {
    seq(|inputs|, i requires 0 <= i < |inputs| => inputs[i].value)
  }

  /** Chaining over a concatenation continues from the chain value of the
      first part: the construction can absorb its inputs one at a time. */
  lemma {:induction false} ChainConcat(hash: KeyedHash, acc: seq<byte>, xs: seq<seq<byte>>, ys: seq<seq<byte>>, n: nat)
    ensures Chain(hash, acc, xs + ys, n) == Chain(hash, Chain(hash, acc, xs, n), ys, n)
    decreases |xs|
  {
    if xs == [] {
      assert xs + ys == ys;
    } else {
      assert (xs + ys)[0] == xs[0];
      assert (xs + ys)[1..] == xs[1..] + ys;
      ChainConcat(hash, hash(xs[0], acc, n), xs[1..], ys, n);
    }
  }

  /** Absorbing one more input keys the hash of that input with the previous
      chain value. */
  lemma {:induction false} ChainAppend(hash: KeyedHash, acc: seq<byte>, messages: seq<seq<byte>>, message: seq<byte>, n: nat)
    ensures Chain(hash, acc, messages + [message], n) == hash(message, Chain(hash, acc, messages, n), n)
  {
    ChainConcat(hash, acc, messages, [message], n);
    var c := Chain(hash, acc, messages, n);
    assert Chain(hash, c, [message], n) == Chain(hash, hash(message, c, n), [], n);
  }

  /** The tag of `messages` under `key1` and `key2`: `n` bytes; with no
      messages, `key1` hashed under `key2`; otherwise the hash under `key2` of
      the last message hashed under the chain value of the ones before it. */
  function Mac(hash: KeyedHash, key1: seq<byte>, key2: seq<byte>, n: nat, messages: seq<seq<byte>>): (r: seq<byte>)
    ensures |r| == n
    ensures messages == [] ==> r == hash(key1, key2, n)
    ensures messages != [] ==>
      var k := |messages| - 1;
      r == hash(hash(messages[k], Chain(hash, key1, messages[..k], n), n), key2, n)
  {
    var chained := Chain(hash, key1, messages, n);
    assert messages != [] ==> chained == hash(messages[|messages| - 1], Chain(hash, key1, messages[..|messages| - 1], n), n) by {
      if messages != [] {
        var k := |messages| - 1;
        assert messages[..k] + [messages[k]] == messages;
        ChainAppend(hash, key1, messages[..k], messages[k], n);
      }
    }
    hash(chained, key2, n)
  }

  /** What `Compute` returns or raises: key1 is checked, then key2, then the
      inputs; only when all three pass is the tag computed. */
  function ComputeResult(hash: KeyedHash, key1: Bytes, key2: Bytes, tagLength: TagLength, inputs: Option<seq<Bytes>>)
    : (r: Result<seq<byte>, Error>)
    ensures r.Ok? <==> AcceptableKey(key1, tagLength) && AcceptableKey(key2, tagLength) && AcceptableInputs(inputs)
    ensures r.Ok? ==> |r.value| == tagLength
    ensures r.Ok? ==> r.value == Mac(hash, key1.value, key2.value, tagLength, Messages(inputs.value))
    ensures !AcceptableKey(key1, tagLength) ==> r == Err(Key(key1, tagLength).error)
    ensures AcceptableKey(key1, tagLength) && !AcceptableKey(key2, tagLength) ==> r == Err(Key(key2, tagLength).error)
    ensures AcceptableKey(key1, tagLength) && AcceptableKey(key2, tagLength) && !AcceptableInputs(inputs)
      ==> r == Err(Inputs(inputs).error)
  {
    var _ :- Key(key1, tagLength);
    var _ :- Key(key2, tagLength);
    var _ :- Inputs(inputs);
    Ok(Mac(hash, key1.value, key2.value, tagLength, Messages(inputs.value)))
  }

  /** An error is decided by the checks alone, before any hashing: it is the
      same whatever the keyed hash is. */
  lemma ComputeErrorIsIndependentOfHash(hash: KeyedHash, other: KeyedHash, key1: Bytes, key2: Bytes, tagLength: TagLength, inputs: Option<seq<Bytes>>)
    requires ComputeResult(hash, key1, key2, tagLength, inputs).Err?
    ensures ComputeResult(other, key1, key2, tagLength, inputs) == ComputeResult(hash, key1, key2, tagLength, inputs)
  {
  }

  /** With valid keys and an empty input collection the tag is `key1` hashed
      under `key2`. */
  lemma ComputeOfNoInputs(hash: KeyedHash, key1: seq<byte>, key2: seq<byte>, tagLength: TagLength)
    requires |key1| == tagLength && |key2| == tagLength
    ensures ComputeResult(hash, Some(key1), Some(key2), tagLength, Some([])) == Ok(hash(key1, key2, tagLength))
  {
  }

  /** Computes the tag of `inputs` under `key1` and `key2`. */
  method Compute(hash: KeyedHash, key1: Bytes, key2: Bytes, tagLength: TagLength, inputs: Option<seq<Bytes>>)
    returns (r: Result<seq<byte>, Error>)
    ensures r == ComputeResult(hash, key1, key2, tagLength, inputs)
  {
    var _ :- Key(key1, tagLength);
    var _ :- Key(key2, tagLength);
    var _ :- Inputs(inputs);
    // A fresh accumulator of tagLength bytes, overwritten by key1
    var buffer := new byte[tagLength];
    forall i | 0 <= i < |key1.value| {
      buffer[i] := key1.value[i];
    }
    var tag := buffer[..];
    assert tag == key1.value;
    var elements := inputs.value;
    ghost var messages := Messages(elements);
    for i := 0 to |elements|
      invariant tag == Chain(hash, key1.value, messages[..i], tagLength)
    {
      assert messages[..i + 1] == messages[..i] + [elements[i].value];
      ChainAppend(hash, key1.value, messages[..i], elements[i].value, tagLength);
      tag := hash(elements[i].value, tag, tagLength);
    }
    assert messages[..|elements|] == messages;
    r := Ok(hash(tag, key2.value, tagLength));
  }

  /** Constant-time comparison of two byte arrays, modelled by its outcome. */
  predicate Compare(a: seq<byte>, b: seq<byte>) {
    a == b
  }

  /** What `Verify` returns or raises: the tag is checked, then both keys
      against the tag's length, then the inputs; the tag is then recomputed
      and compared with the one supplied. */
  function Verify(hash: KeyedHash, tag: Bytes, key1: Bytes, key2: Bytes, inputs: Option<seq<Bytes>>): (r: Result<bool, Error>)
    ensures r.Ok? <==> AcceptableTag(tag) && AcceptableKey(key1, |tag.value|) && AcceptableKey(key2, |tag.value|)
                       && AcceptableInputs(inputs)
    ensures r.Ok? ==> (r.value <==> tag.value == Mac(hash, key1.value, key2.value, |tag.value|, Messages(inputs.value)))
    ensures !AcceptableTag(tag) ==> r == Err(Tag(tag).error)
    ensures AcceptableTag(tag) && !AcceptableKey(key1, |tag.value|) ==> r == Err(Key(key1, |tag.value|).error)
    ensures AcceptableTag(tag) && AcceptableKey(key1, |tag.value|) && !AcceptableKey(key2, |tag.value|)
      ==> r == Err(Key(key2, |tag.value|).error)
    ensures (AcceptableTag(tag) && AcceptableKey(key1, |tag.value|) && AcceptableKey(key2, |tag.value|)
             && !AcceptableInputs(inputs)) ==> r == Err(Inputs(inputs).error)
  {
    var _ :- Tag(tag);
    var _ :- Key(key1, |tag.value|);
    var _ :- Key(key2, |tag.value|);
    var _ :- Inputs(inputs);
    // Compute checks the same keys and inputs again, and they pass
    var computedTag := ComputeResult(hash, key1, key2, |tag.value| as TagLength, inputs).value;
    Ok(Compare(tag.value, computedTag))
  }

  /** A freshly computed tag verifies under the same keys and inputs. */
  lemma VerifyComputedTag(hash: KeyedHash, key1: Bytes, key2: Bytes, tagLength: TagLength, inputs: Option<seq<Bytes>>, tag: seq<byte>)
    requires ComputeResult(hash, key1, key2, tagLength, inputs) == Ok(tag)
    ensures Verify(hash, Some(tag), key1, key2, inputs) == Ok(true)
  {
  }

  /** Any other tag of the same length is rejected without an error: one
      flipped bit is enough for `Verify` to return false. */
  lemma VerifyRejectsOtherTag(hash: KeyedHash, key1: Bytes, key2: Bytes, tagLength: TagLength, inputs: Option<seq<Bytes>>,
                              tag: seq<byte>, forged: seq<byte>)
    requires ComputeResult(hash, key1, key2, tagLength, inputs) == Ok(tag)
    requires |forged| == tagLength && forged != tag
    ensures Verify(hash, Some(forged), key1, key2, inputs) == Ok(false)
  {
  }

  /** A tag of another admissible length is not rejected with false: the
      keys no longer match its length, and `Verify` raises. */
  lemma VerifyOtherLengthRaises(hash: KeyedHash, key1: Bytes, key2: Bytes, tagLength: TagLength, inputs: Option<seq<Bytes>>,
                                tag: seq<byte>, forged: seq<byte>)
    requires ComputeResult(hash, key1, key2, tagLength, inputs) == Ok(tag)
    requires IsTagLength(|forged|) && |forged| != tagLength
    ensures Verify(hash, Some(forged), key1, key2, inputs) == Err(InvalidKeyLength)
  {
  }
}
