/**
 * The status protocol shared by every decoder: a decoder either completes,
 * or reports how many more bytes it needs, or fails with an error.  A
 * decoder's result is a `Result<Status<(consumed, value)>>`.
 */
module Status {
  import opened Types

  /** `Complete` carries the decoded value; `Partial` the number of extra bytes
      needed before trying again.  Partial means no invalid data was seen, and
      the `Result` around a status keeps errors and partial results apart. */
  datatype Status<+T> = Complete(item: T) | Partial(needed: nat)

  /** `is_complete`: the negation of `is_partial`. */
  function IsComplete<T>(s: Status<T>): (b: bool)
    ensures b <==> !IsPartial(s)
  {
    match s
    case Complete(_) => true
    case Partial(_) => false
  }

  /** `is_partial`: true exactly for the `Partial` alternative. */
  function IsPartial<T>(s: Status<T>): (b: bool)
    ensures b <==> !s.Complete?
  {
    match s
    case Complete(_) => false
    case Partial(_) => true
  }

  /** `unwrap`: the value carried by a complete status (the source panics on a
      partial one, so that case is excluded by the precondition). */
  function Unwrap<T>(s: Status<T>): (t: T)
    requires IsComplete(s)
    ensures s == Complete(t)
  {
    match s
    case Complete(t) => t
  }

  /** A decoder result that makes `complete!` and `read!` return early:
      an error, or a partial status. */
  predicate Stops<T>(r: Result<Status<T>>) {
    r.Err? || r.value.Partial?
  }

  /** The decoder outcome, with its consumed count and value, when it does not stop. */
  predicate Completes<T>(r: Result<Status<T>>) {
    r.Ok? && r.value.Complete?
  }

  /** `r` is the early return that `p` causes: the same error, or a partial
      status asking for the same number of bytes. */
  predicate SameStop<A, B>(r: Result<Status<A>>, p: Result<Status<B>>) {
    Stops(r) && Stops(p) && (r.Err? <==> p.Err?) &&
    (r.Err? ==> r.error == p.error) &&
    (r.Ok? ==> r.value.needed == p.value.needed)
  }

  /** The invariant that a decoder never asks for zero more bytes. */
  predicate NoZeroPartial<T>(r: Result<Status<T>>) {
    r.Ok? && r.value.Partial? ==> r.value.needed >= 1
  }

  /** A partial status for a prefix of `k` bytes that asks for at least one
      more byte and for no more than would reach `end`. */
  predicate PartialWithin<T>(r: Result<Status<T>>, k: nat, end: nat) {
    r.Ok? && r.value.Partial? && 1 <= r.value.needed && k + r.value.needed <= end
  }

  /** Partial monotonicity of `parse` on an input it decodes completely,
      consuming `n` bytes: given only the first `k` bytes, it returns the same
      result once `k` reaches `n`, and otherwise asks for more bytes but never
      for more than the `n - k` still missing. */
  predicate PrefixMonotone<T(==)>(parse: seq<byte> -> Result<Status<(nat, T)>>, bytes: seq<byte>, k: nat)
    requires Completes(parse(bytes)) && k <= |bytes|
  {
    var n := parse(bytes).value.item.0;
    (n <= k ==> parse(bytes[..k]) == parse(bytes)) &&
    (k < n ==> PartialWithin(parse(bytes[..k]), k, n))
  }

  /** The early return of `complete!` and `read!`: the error is passed on
      through `try!`, and a partial status is re-wrapped with the same count,
      at whatever value type the enclosing decoder returns. */
  function Propagate<A, B>(r: Result<Status<A>>): (s: Result<Status<B>>)
    requires Stops(r)
    ensures SameStop(s, r)
    ensures NoZeroPartial(r) ==> NoZeroPartial(s)
  {
    if r.Err? then Err(r.error) else Ok(Partial(r.value.needed))
  }

  /** `read!`: apply a field decoder to the suffix of `bytes` at `offset`; on
      completion the new offset is `offset` plus what the field consumed.  An
      error or a partial status of the field decoder is the result unchanged. */
  function Read<T>(parse: seq<byte> -> Result<Status<(nat, T)>>, bytes: seq<byte>, offset: nat)
    : (r: Result<Status<(nat, T)>>)
    requires offset <= |bytes|
    ensures Stops(r) <==> Stops(parse(bytes[offset..]))
    ensures Stops(r) ==> SameStop(r, parse(bytes[offset..]))
    ensures Completes(parse(bytes[offset..])) ==>
              var (n, v) := parse(bytes[offset..]).value.item;
              r == Ok(Complete((offset + n, v)))
    ensures NoZeroPartial(parse(bytes[offset..])) ==> NoZeroPartial(r)
  {
    var p := parse(bytes[offset..]);
    if Stops(p) then p else Ok(Complete((offset + p.value.item.0, p.value.item.1)))
  }

  /** Two `read!` steps from offset 0 end at the sum of the two consumed counts. */
  lemma ReadTwice<A, B>(first: seq<byte> -> Result<Status<(nat, A)>>,
                        second: seq<byte> -> Result<Status<(nat, B)>>,
                        bytes: seq<byte>)
    requires Completes(first(bytes)) && first(bytes).value.item.0 <= |bytes|
    requires Completes(second(bytes[first(bytes).value.item.0..]))
    ensures var mid := Read(first, bytes, 0).value.item.0;
            mid <= |bytes| &&
            Read(second, bytes, mid).value.item.0
              == first(bytes).value.item.0 + second(bytes[first(bytes).value.item.0..]).value.item.0
  {
    assert bytes[0..] == bytes;
  }
}
