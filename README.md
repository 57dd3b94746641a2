# MultiMAC in Dafny

MultiMAC authenticates an ordered list of byte arrays under two keys with
keyed BLAKE2b. `Compute(key1, key2, tagLength, inputs)` checks its arguments,
seeds an accumulator with `key1`, replaces it by `hash(input, accumulator,
tagLength)` for each input in order, and returns `hash(accumulator, key2,
tagLength)`. `Verify(tag, key1, key2, inputs)` checks its arguments,
recomputes the tag for the supplied tag's length and compares the two.
Every argument error raises an exception of one of seven kinds before any
hashing happens.

The model has three modules:

- `Wrappers` (Wrappers.dfy): `Option`, which stands for a nullable
  reference, and `Result`, which stands for a call that returns or raises.
- `ParameterValidation` (ParameterValidation.dfy): the guard checks `Key`,
  `Inputs` and `Tag` as pure functions returning `Result<(), Error>`. Each
  check is specified by a predicate of what it accepts (`AcceptableKey`,
  `AcceptableInputs`, `AcceptableTag`), and its contract also says which
  error wins. For the inputs, the error is that of the first rejected
  element (`FirstRejected`, `RejectionOf`).
- `MultiMac` (MultiMac.dfy): keyed BLAKE2b is a function-valued parameter of
  type `KeyedHash`. The only thing the model knows about it is its output
  length. `Chain` is the left fold that the loop of `Compute` performs,
  and `Mac` is the final hash under `key2`. `ComputeResult` states what
  `Compute` returns or raises. `Compute` is the imperative method: it
  allocates the accumulator array, copies `key1` into it, and runs the loop.
  It is proved equal to `ComputeResult`. `Verify` is a function over
  `ComputeResult`.

Modelling decisions:

- A `byte[]` argument is an `Option<seq<byte>>`, where `None` is null. The
  `params byte[][]` input collection is an `Option<seq<Option<seq<byte>>>>`.
- The `TagLength` enumeration is the subset type `{32, 48, 64}` of `nat`.
  These are the sizes its members BLAKE2b256, BLAKE2b384 and BLAKE2b512
  name.
- `MultiMac.cs:46` calls `ParameterValidation.Tag(tag, tag?.Length ?? 0)`
  with two arguments, but `ParameterValidation.cs:44` declares `Tag(byte[]
  tag)` with one. The model follows the declared one-argument check: null,
  then a length in {32, 48, 64}. A comparison against the tag's own length,
  as the two-argument call suggests, would accept every non-null tag, so
  under that reading `Verify` would go on to compute and compare for tags
  of other lengths instead of raising InvalidTagLength.
- `Utilities.Compare` is sequence equality (`Compare`).

## Model

| member | source | states |
|---|---|---|
| `ParameterValidation.Key` | src/MultiMAC/ParameterValidation.cs:28-32 | succeeds iff the key is non-null and its length is `validKeyLength`; a null key raises MissingKey, and a non-null key of another length raises InvalidKeyLength |
| `ParameterValidation.CheckElements` | src/MultiMAC/ParameterValidation.cs:37-41 | the element loop succeeds iff every element is non-null and non-empty (an empty list passes); a failure is always MissingInput or EmptyInput |
| `ParameterValidation.CheckElementsReportsFirst` | src/MultiMAC/ParameterValidation.cs:37-40 | the error raised is that of the first rejected element in list order; for that element, null (MissingInput) is tested before empty (EmptyInput) |
| `ParameterValidation.Inputs` | src/MultiMAC/ParameterValidation.cs:34-42 | succeeds iff the collection is non-null and all its elements are acceptable; a null collection raises MissingInputs; otherwise the first rejected element decides the error |
| `ParameterValidation.Tag` | src/MultiMAC/ParameterValidation.cs:44-48 | succeeds iff the tag is non-null and its length is 32, 48 or 64; a null tag raises MissingTag, and any other length raises InvalidTagLength |
| `MultiMac.Chain` | src/MultiMAC/MultiMac.cs:37-40 | the left fold `acc := hash(input, acc, tagLength)` over the inputs in order: with no inputs it is the starting accumulator (`key1`) itself, and after at least one input it has `tagLength` bytes |
| `MultiMac.ChainConcat` | src/MultiMAC/MultiMac.cs:37-40 | folding `xs + ys` equals folding `ys` from the chain value of `xs`, so inputs can be absorbed one at a time |
| `MultiMac.ChainAppend` | src/MultiMAC/MultiMac.cs:37-40 | the chain value of `inputs + [x]` is `hash(x, chain(inputs), tagLength)` |
| `MultiMac.Mac` | src/MultiMAC/MultiMac.cs:41 | the final hash of the chain value under `key2`: it has `tagLength` bytes; with no inputs it is `hash(key1, key2, tagLength)`; otherwise it is the hash under `key2` of the last input hashed under the chain value of the inputs before it |
| `MultiMac.ComputeResult` | src/MultiMAC/MultiMac.cs:30-42 | succeeds iff both keys have `tagLength` bytes and the inputs are acceptable. The checks run key1, then key2, then the inputs, and the first failure decides the error. On success the tag has `tagLength` bytes and is `hash(Chain(key1, inputs), key2, tagLength)` |
| `MultiMac.ComputeErrorIsIndependentOfHash` | src/MultiMAC/MultiMac.cs:32-34 | whether and how `Compute` fails does not depend on the hash: the checks decide it before any hashing |
| `MultiMac.ComputeOfNoInputs` | src/MultiMAC/MultiMac.cs:35-41 | valid keys and an empty input collection give `hash(key1, key2, tagLength)` |
| `MultiMac.Compute` | src/MultiMAC/MultiMac.cs:30-42 | the method returns exactly `ComputeResult`. Its accumulator starts as a fresh `tagLength`-byte array overwritten by `key1`, and the loop invariant keeps it equal to the fold over the inputs processed so far |
| `MultiMac.Verify` | src/MultiMAC/MultiMac.cs:44-52 | succeeds iff the tag is admissible, both keys have the tag's length, and the inputs are acceptable. The checks run tag, key1, key2, then the inputs, and the first failure decides the error. On success it returns true iff the tag equals the recomputed tag |
| `MultiMac.VerifyComputedTag` | src/MultiMAC/MultiMac.cs:46-51 | a tag just computed by `Compute` verifies under the same keys and inputs |
| `MultiMac.VerifyRejectsOtherTag` | src/MultiMAC/MultiMac.cs:50-51 | any other tag of the same length returns false rather than raising |
| `MultiMac.VerifyOtherLengthRaises` | src/MultiMAC/MultiMac.cs:46-48 | a tag of another admissible length raises InvalidKeyLength rather than returning false, since the keys no longer match its length |

## Left out

- Keyed BLAKE2b (`GenericHash.Hash`) is a foreign cryptographic primitive. It is the parameter `hash`, and the model assumes only that it returns `outputLength` bytes. Its own argument checks (a key of at most 64 bytes, an output of 16 to 64 bytes) are not modelled because they can never fail here: by `Chain`'s contract every accumulator used as a key has `tagLength` bytes (`key1` itself, then a hash output), `key2` has `tagLength` bytes, and every output length is `tagLength`, which is 32, 48 or 64.
- The constant-time behaviour of `Utilities.Compare` cannot be expressed, so the comparison is plain equality.
- Order sensitivity, key sensitivity and collision resistance hold only with overwhelming probability under assumptions about the hash. They cannot be proved over an abstract hash. Determinism holds by construction, because the model consists of functions and a method with no other inputs.
- Byte arrays are values. So aliasing between the caller's `key1` and the accumulator cannot arise in the model: `key1` is left unchanged by construction rather than by proof. The same holds for "no check modifies its arguments".
- The exception classes, parameter names and message texts are reduced to the `Error` kinds.
- `TagLength` values outside its three members, which a C# cast could produce, are excluded by the `TagLength` subset type.
- Thread-safety needs no model, because nothing is shared or concurrent.
