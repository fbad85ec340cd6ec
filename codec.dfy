/**
 * The primitive codecs that the decoders and encoders call: a big-endian
 * 16-bit integer and length-prefixed byte and UTF-8 strings, framed as in
 * section 1.5.3 of MQTT 3.1.1 (a 2-byte big-endian length followed by that
 * many bytes).  Their source is not part of this model; they are given here
 * as small definitions of that framing, with the contracts the core relies on.
 */
module Codec {
  import opened Types
  import opened Status

  /** The big-endian value of two bytes. */
  function BigEndian(hi: byte, lo: byte): u16 {
    hi * 0x100 + lo
  }

  /** The big-endian bytes of a 16-bit value. */
  function U16Bytes(n: u16): (b: seq<byte>)
    ensures |b| == 2 && BigEndian(b[0], b[1]) == n
  {
    [n / 0x100, n % 0x100]
  }

  /** The 2-byte length prefix followed by the field itself. */
  function LengthPrefixed(field: seq<byte>): (b: seq<byte>)
    requires |field| <= 0xFFFF
    ensures |b| == 2 + |field| && b[2..] == field
  {
    U16Bytes(|field|) + field
  }

  /** `codec::values::parse_u16`: two bytes, big-endian. */
  function ParseU16(bytes: seq<byte>): (r: Result<Status<(nat, u16)>>)
    ensures r.Ok? && NoZeroPartial(r)
    ensures r.value.Partial? <==> |bytes| < 2
    ensures r.value.Partial? ==> r.value.needed == 2 - |bytes|
    ensures r.value.Complete? ==> r.value.item == (2, BigEndian(bytes[0], bytes[1]))
  {
    if |bytes| < 2 then Ok(Partial(2 - |bytes|))
    else Ok(Complete((2, BigEndian(bytes[0], bytes[1]))))
  }

  /** `codec::values::parse_bytes`: a length prefix, then that many bytes.
      A partial result counts exactly the bytes still missing, of the prefix
      or of the field. */
  function ParseBytes(bytes: seq<byte>): (r: Result<Status<(nat, seq<byte>)>>)
    ensures r.Ok? && NoZeroPartial(r)
    ensures r.value.Partial? ==> |bytes| < 2 || |bytes| < 2 + BigEndian(bytes[0], bytes[1])
    ensures r.value.Partial? && |bytes| < 2 ==> r.value.needed == 2 - |bytes|
    ensures r.value.Partial? && |bytes| >= 2 ==>
              |bytes| + r.value.needed == 2 + BigEndian(bytes[0], bytes[1])
    ensures r.value.Complete? ==>
              var (n, field) := r.value.item;
              n == 2 + |field| <= |bytes| && |field| <= 0xFFFF && bytes[..n] == LengthPrefixed(field)
  {
    if |bytes| < 2 then Ok(Partial(2 - |bytes|))
    else
      var len := BigEndian(bytes[0], bytes[1]);
      if |bytes| < 2 + len then Ok(Partial(2 + len - |bytes|))
      else Ok(Complete((2 + len, bytes[2..2 + len])))
  }

  /** A continuation byte of a UTF-8 sequence. */
  predicate Continuation(b: byte) {
    0x80 <= b <= 0xBF
  }

  /** Well-formed UTF-8, by the table of section 4 of RFC 3629 (no overlong
      forms, no surrogates, nothing above U+10FFFF). */
  predicate Utf8Valid(s: seq<byte>) {
    Utf8ValidFrom(s, 0)
  }

  /** The bytes of `s` from index `i` on are a sequence of well-formed UTF-8
      characters. */
  predicate Utf8ValidFrom(s: seq<byte>, i: nat)
    requires i <= |s|
    decreases |s| - i
  {
    if i == |s| then true
    else if s[i] < 0x80 then Utf8ValidFrom(s, i + 1)
    else if 0xC2 <= s[i] <= 0xDF then
      i + 2 <= |s| && Continuation(s[i + 1]) && Utf8ValidFrom(s, i + 2)
    else if 0xE0 <= s[i] <= 0xEF then
      i + 3 <= |s| && Continuation(s[i + 1]) && Continuation(s[i + 2]) &&
      (s[i] == 0xE0 ==> s[i + 1] >= 0xA0) &&
      (s[i] == 0xED ==> s[i + 1] <= 0x9F) &&
      Utf8ValidFrom(s, i + 3)
    else if 0xF0 <= s[i] <= 0xF4 then
      i + 4 <= |s| && Continuation(s[i + 1]) && Continuation(s[i + 2]) && Continuation(s[i + 3]) &&
      (s[i] == 0xF0 ==> s[i + 1] >= 0x90) &&
      (s[i] == 0xF4 ==> s[i + 1] <= 0x8F) &&
      Utf8ValidFrom(s, i + 4)
    else false
  }

  /** `codec::string::parse_string`: the framing of `ParseBytes`, and then
      malformed UTF-8 is an error, never a partial result. */
  function ParseString(bytes: seq<byte>): (r: Result<Status<(nat, seq<byte>)>>)
    ensures NoZeroPartial(r)
    ensures Stops(ParseBytes(bytes)) ==> r == ParseBytes(bytes)
    ensures r.Err? <==> Completes(ParseBytes(bytes)) && !Utf8Valid(ParseBytes(bytes).value.item.1)
    ensures r.Err? ==> r.error == InvalidUtf8
    ensures Completes(r) ==> r == ParseBytes(bytes) && Utf8Valid(r.value.item.1)
  {
    var p := ParseBytes(bytes);
    if Completes(p) && !Utf8Valid(p.value.item.1) then Err(InvalidUtf8) else p
  }

  /** A length-prefixed field decodes back to itself, whatever follows it. */
  lemma ParseBytesOfLengthPrefixed(field: seq<byte>, rest: seq<byte>)
    requires |field| <= 0xFFFF
    ensures ParseBytes(LengthPrefixed(field) + rest) == Ok(Complete((2 + |field|, field)))
  {
    var bytes := LengthPrefixed(field) + rest;
    assert bytes[2..2 + |field|] == field;
  }

  /** A length-prefixed well-formed UTF-8 string decodes back to itself. */
  lemma ParseStringOfLengthPrefixed(s: seq<byte>, rest: seq<byte>)
    requires |s| <= 0xFFFF && Utf8Valid(s)
    ensures ParseString(LengthPrefixed(s) + rest) == Ok(Complete((2 + |s|, s)))
  {
    ParseBytesOfLengthPrefixed(s, rest);
  }

  /** `parse_bytes` on a prefix of a field it decodes: the missing bytes of
      the length or of the field, never more. */
  lemma ParseBytesPrefix(bytes: seq<byte>, k: nat)
    requires Completes(ParseBytes(bytes)) && k <= |bytes|
    ensures PrefixMonotone(ParseBytes, bytes, k)
  {
    var prefix := bytes[..k];
    if k >= 2 {
      assert prefix[0] == bytes[0] && prefix[1] == bytes[1];
      var n := ParseBytes(bytes).value.item.0;
      if n <= k {
        assert prefix[2..n] == bytes[2..n];
      }
    }
  }

  /** `parse_string` on a prefix of a string it decodes: the UTF-8 check
      waits for the whole field, so a prefix is only ever partial. */
  lemma ParseStringPrefix(bytes: seq<byte>, k: nat)
    requires Completes(ParseString(bytes)) && k <= |bytes|
    ensures PrefixMonotone(ParseString, bytes, k)
  {
    ParseBytesPrefix(bytes, k);
  }

  /** One in-place write of a length-prefixed field at position `at` of a buffer. */
  datatype Write = Write(at: nat, field: seq<byte>)

  /** The write has a representable length and lies inside a buffer of `size` bytes. */
  predicate Fits(w: Write, size: nat) {
    |w.field| <= 0xFFFF && w.at + 2 + |w.field| <= size
  }

  predicate AllFit(ws: seq<Write>, size: nat) {
    forall i :: 0 <= i < |ws| ==> Fits(ws[i], size)
  }

  /** The error an encoder reports for a write that does not fit. */
  function FailureOf(w: Write): Error {
    if |w.field| > 0xFFFF then LengthOverflow else InsufficientCapacity
  }

  /** The buffer `s` after one write: the field's framing replaces the bytes at
      `w.at`, and every other byte is kept. */
  function Overwrite(s: seq<byte>, w: Write): (r: seq<byte>)
    requires Fits(w, |s|)
    ensures |r| == |s|
  {
    s[..w.at] + LengthPrefixed(w.field) + s[w.at + 2 + |w.field|..]
  }

  /** The buffer `s` after the writes `ws`, in order; a later write may
      overwrite an earlier one. */
  function ApplyWrites(s: seq<byte>, ws: seq<Write>): (r: seq<byte>)
    requires AllFit(ws, |s|)
    ensures |r| == |s|
    decreases |ws|
  {
    if ws == [] then s else ApplyWrites(Overwrite(s, ws[0]), ws[1..])
  }

  /** `ws[k]` is the first write of `ws` that does not fit: an encoder that
      performs `ws` in order stops there, after `ws[..k]`. */
  predicate FirstMisfit(ws: seq<Write>, k: nat, size: nat) {
    k < |ws| && AllFit(ws[..k], size) && !Fits(ws[k], size)
  }

  /** What an encoder reports and leaves behind: the error it stopped with, if
      any, and the buffer. */
  datatype Outcome = Outcome(failure: Option<Error>, buffer: seq<byte>)

  /** The writes `ws` performed in order on `s`, stopping at the first that
      does not fit, with its error and the buffer as the writes before it left it. */
  function Perform(s: seq<byte>, ws: seq<Write>): (o: Outcome)
    ensures |o.buffer| == |s|
    decreases |ws|
  {
    if ws == [] then Outcome(None, s)
    else if !Fits(ws[0], |s|) then Outcome(Some(FailureOf(ws[0])), s)
    else Perform(Overwrite(s, ws[0]), ws[1..])
  }

  lemma AllFitCons(ws: seq<Write>, size: nat)
    requires ws != []
    ensures AllFit(ws, size) <==> Fits(ws[0], size) && AllFit(ws[1..], size)
  {
    if Fits(ws[0], size) && AllFit(ws[1..], size) {
      forall i | 0 <= i < |ws| ensures Fits(ws[i], size) {
        if i > 0 {
          assert ws[i] == ws[1..][i - 1];
        }
      }
    }
  }

  /** Performing writes succeeds exactly when every write fits, and then
      leaves the buffer with all of them applied. */
  lemma {:induction false} PerformSucceeds(s: seq<byte>, ws: seq<Write>)
    ensures Perform(s, ws).failure.None? <==> AllFit(ws, |s|)
    ensures AllFit(ws, |s|) ==> Perform(s, ws).buffer == ApplyWrites(s, ws)
    decreases |ws|
  {
    if ws != [] {
      AllFitCons(ws, |s|);
      if Fits(ws[0], |s|) {
        PerformSucceeds(Overwrite(s, ws[0]), ws[1..]);
      }
    }
  }

  /** Performing writes that do not all fit stops at the first that does
      not, with its error, and the writes before it applied. */
  lemma {:induction false} PerformFails(s: seq<byte>, ws: seq<Write>)
    requires Perform(s, ws).failure.Some?
    ensures exists k: nat :: FirstMisfit(ws, k, |s|) &&
              Perform(s, ws).failure.value == FailureOf(ws[k]) &&
              Perform(s, ws).buffer == ApplyWrites(s, ws[..k])
    decreases |ws|
  {
    if !Fits(ws[0], |s|) {
      assert ws[..0] == [];
      assert FirstMisfit(ws, 0, |s|);
    } else {
      var s1 := Overwrite(s, ws[0]);
      PerformFails(s1, ws[1..]);
      var k: nat :| FirstMisfit(ws[1..], k, |s|) &&
                    Perform(s1, ws[1..]).failure.value == FailureOf(ws[1..][k]) &&
                    Perform(s1, ws[1..]).buffer == ApplyWrites(s1, ws[1..][..k]);
      var prefix := ws[..k + 1];
      assert prefix[0] == ws[0] && prefix[1..] == ws[1..][..k];
      AllFitCons(prefix, |s|);
      assert FirstMisfit(ws, k + 1, |s|);
    }
  }

  /** Performing `a + b` performs `a`, then, unless that failed, `b`. */
  lemma {:induction false} PerformAppend(s: seq<byte>, a: seq<Write>, b: seq<Write>)
    ensures Perform(s, a + b) ==
              (var p := Perform(s, a); if p.failure.Some? then p else Perform(p.buffer, b))
    decreases |a|
  {
    if a == [] {
      assert a + b == b;
    } else {
      assert (a + b)[0] == a[0] && (a + b)[1..] == a[1..] + b;
      if Fits(a[0], |s|) {
        PerformAppend(Overwrite(s, a[0]), a[1..], b);
      }
    }
  }

  /** The outcome `r` of an encoder that performs the writes `ws` in order on a
      buffer holding `before`, leaving `after`: it succeeds exactly when
      `Perform` does, fails with the same error, and leaves the same buffer. */
  predicate Performed<T>(ws: seq<Write>, r: Result<T>, before: seq<byte>, after: seq<byte>) {
    var o := Perform(before, ws);
    after == o.buffer && (r.Ok? <==> o.failure.None?) && (r.Err? ==> o.failure == Some(r.error))
  }

  /** Performing the next writes after `done` either extends the writes
      performed or ends the encoding with their error. */
  lemma Continue<T>(done: seq<Write>, next: seq<Write>, r: Result<T>,
                    before: seq<byte>, now: seq<byte>, after: seq<byte>)
    requires Perform(before, done) == Outcome(None, now)
    requires Performed(next, r, now, after)
    ensures r.Ok? ==> Perform(before, done + next) == Outcome(None, after)
    ensures r.Err? ==> Performed(done + next, r, before, after)
  {
    PerformAppend(before, done, next);
  }

  /** Once performing `a` has failed, writes after it are never performed. */
  lemma Abandon<T>(a: seq<Write>, b: seq<Write>, r: Result<T>, before: seq<byte>, after: seq<byte>)
    requires r.Err? && Performed(a, r, before, after)
    ensures Performed(a + b, r, before, after)
  {
    PerformAppend(before, a, b);
  }

  /** `codec::values::encode_bytes` into the slice of `dst` that starts at
      `start`: the prefix and the field, and the count written into that slice.
      A field too long for its prefix, or a slice too short for the whole
      framing, is an error found before anything is written. */
  method EncodeBytes(field: seq<byte>, dst: array<byte>, start: nat) returns (r: Result<nat>)
    requires start <= dst.Length
    modifies dst
    ensures r.Ok? <==> Fits(Write(start, field), dst.Length)
    ensures r.Ok? ==> r.value == 2 + |field| &&
                      dst[..] == Overwrite(old(dst[..]), Write(start, field))
    ensures r.Err? ==> r.error == FailureOf(Write(start, field)) && dst[..] == old(dst[..])
    ensures Performed([Write(start, field)], r, old(dst[..]), dst[..])
  {
    ghost var ws := [Write(start, field)];
    if |field| > 0xFFFF || dst.Length - start < 2 + |field| {
      return Err(FailureOf(Write(start, field)));
    }
    var prefix := U16Bytes(|field|);
    dst[start] := prefix[0];
    dst[start + 1] := prefix[1];
    forall i | 0 <= i < |field| {
      dst[start + 2 + i] := field[i];
    }
    assert dst[..] == Overwrite(old(dst[..]), Write(start, field)) by {
      var expected := Overwrite(old(dst[..]), Write(start, field));
      forall i | 0 <= i < dst.Length ensures dst[i] == expected[i] {
        if start + 2 <= i < start + 2 + |field| {
          assert expected[i] == LengthPrefixed(field)[i - start];
        }
      }
    }
    assert ws[1..] == [];
    r := Ok(2 + |field|);
  }

  /** `codec::string::encode_string`: a string is written as its UTF-8 bytes,
      framed as by `EncodeBytes`. */
  method EncodeString(s: seq<byte>, dst: array<byte>, start: nat) returns (r: Result<nat>)
    requires start <= dst.Length
    modifies dst
    ensures r.Ok? <==> Fits(Write(start, s), dst.Length)
    ensures r.Ok? ==> r.value == 2 + |s| && dst[..] == Overwrite(old(dst[..]), Write(start, s))
    ensures r.Err? ==> r.error == FailureOf(Write(start, s)) && dst[..] == old(dst[..])
    ensures Performed([Write(start, s)], r, old(dst[..]), dst[..])
  {
    r := EncodeBytes(s, dst, start);
  }
}
