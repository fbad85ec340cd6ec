/**
 * Decoding a whole control packet (sections 2.1-2.3 of MQTT 3.1.1): the fixed
 * header, then the variable header for the packet's type when that type has
 * one, then the payload window, whose length is the fixed header's remaining
 * length minus what the variable header consumed.
 *
 * The fixed-header and variable-header decoders are not part of this model:
 * `Packet::from_bytes` is modelled over any pair of decoders that keep the
 * contracts `FixedHeaderDecoder` and `VariableHeaderDecoder` state.
 */
module Packet {
  import opened Types
  import opened Status
  import Suback

  /** The largest remaining length the variable-length encoding can carry
      (section 2.2.3 of MQTT 3.1.1). */
  const MaxRemainingLength: nat := 268435455

  /** `usize` on a 64-bit target: arithmetic wraps modulo this. */
  const UsizeModulus: nat := 0x1_0000_0000_0000_0000

  /** `isize::MAX`: no slice is longer than this many bytes. */
  const MaxSliceLength: nat := 0x7FFF_FFFF_FFFF_FFFF

  /** The control packet type number of SUBACK. */
  const SubackType: nat := 9

  /** The fixed header: packet type, the 4 flag bits and the remaining length. */
  datatype FixedHeader = FixedHeader(packetType: nat, flags: nat, remainingLength: nat)

  predicate ValidFixedHeader(h: FixedHeader) {
    h.packetType < 16 && h.flags < 16 && h.remainingLength <= MaxRemainingLength
  }

  /** A decoded packet: its payload is a window of the input. */
  datatype Packet<VH> = Packet(fixedHeader: FixedHeader, variableHeader: Option<VH>, payload: seq<byte>)

  type FixedDecoder = seq<byte> -> Result<Status<(nat, FixedHeader)>>

  /** The variable-header dispatch: `None` for a packet type that has no
      variable header, otherwise the type's own decoder's result. */
  type VariableDecoder<VH> = (nat, seq<byte>) -> Option<Result<Status<(nat, VH)>>>

  /** What `FixedHeader::from_bytes` promises about one input: no `Partial(0)`;
      on completion at least one byte and at most the input is consumed and
      the header is well formed. */
  predicate FixedHeaderResult(bytes: seq<byte>, r: Result<Status<(nat, FixedHeader)>>) {
    NoZeroPartial(r) &&
    (Completes(r) ==> 1 <= r.value.item.0 <= |bytes| && ValidFixedHeader(r.value.item.1))
  }

  ghost predicate FixedHeaderDecoder(fixed: FixedDecoder) {
    forall bytes :: FixedHeaderResult(bytes, fixed(bytes))
  }

  /** What `VariableHeader::from_bytes` promises about one input: a present
      result follows the status protocol and consumes at most the input. */
  predicate VariableHeaderResult<VH>(bytes: seq<byte>, r: Option<Result<Status<(nat, VH)>>>) {
    r.Some? ==> NoZeroPartial(r.value) && (Completes(r.value) ==> r.value.value.item.0 <= |bytes|)
  }

  /** The contract of the variable-header dispatch: whether a packet type
      has a variable header depends on the type alone, and each present
      result follows the status protocol. */
  ghost predicate VariableHeaderDecoder<VH>(variable: VariableDecoder<VH>) {
    (forall packetType, a, b :: variable(packetType, a).Some? == variable(packetType, b).Some?) &&
    (forall packetType, bytes :: VariableHeaderResult(bytes, variable(packetType, bytes)))
  }

  function Min(a: nat, b: nat): (m: nat)
    ensures m <= a && m <= b && (m == a || m == b)
  {
    if a <= b then a else b
  }

  /** `usize` subtraction in a release build: it wraps around below zero. */
  function WrappingSub(a: nat, b: nat): (d: nat)
    requires a < UsizeModulus && b < UsizeModulus
    ensures d < UsizeModulus
    ensures a >= b ==> d == a - b
    ensures a < b ==> d == UsizeModulus - (b - a)
  {
    (a - b) % UsizeModulus
  }

  /** The variable header's consumed count and value, when the dispatch
      completed; 0 and no value when the type has no variable header. */
  function VariableConsumed<VH>(v: Option<Result<Status<(nat, VH)>>>): nat {
    if v.Some? && Completes(v.value) then v.value.value.item.0 else 0
  }

  function VariableValue<VH>(v: Option<Result<Status<(nat, VH)>>>): Option<VH> {
    if v.Some? && Completes(v.value) then Some(v.value.value.item.1) else None
  }

  /** The variable header may be decoded: the type has none, or its decoder
      completed within the remaining length. */
  predicate VariableFits<VH>(v: Option<Result<Status<(nat, VH)>>>, remainingLength: nat) {
    v.None? || (Completes(v.value) && v.value.value.item.0 <= remainingLength)
  }

  /** `Packet::from_bytes`, with an error where a variable header consumed
      more than the remaining length: the fixed header is read, then the
      variable header from everything after it, then the payload window.
      An error or partial result of either decoder is returned unchanged; a
      packet that is not all there yet asks for exactly the missing bytes;
      a complete packet consumes the fixed header plus the remaining length,
      and its payload is the rest of that window after the variable header. */
  function FromBytes<VH>(fixed: FixedDecoder, variable: VariableDecoder<VH>, bytes: seq<byte>)
    : (r: Result<Status<(nat, Packet<VH>)>>)
    requires FixedHeaderDecoder(fixed) && VariableHeaderDecoder(variable)
    ensures NoZeroPartial(r)
    ensures Stops(fixed(bytes)) ==> SameStop(r, fixed(bytes))
    ensures Completes(fixed(bytes)) ==>
              var (fo, h) := fixed(bytes).value.item;
              var v := variable(h.packetType, bytes[fo..]);
              var vo := VariableConsumed(v);
              var len := h.remainingLength;
              (v.Some? && Stops(v.value) ==> SameStop(r, v.value)) &&
              (v.Some? && Completes(v.value) && vo > len ==> r == Err(MalformedPacket)) &&
              (Completes(r) <==> VariableFits(v, len) && fo + len <= |bytes|) &&
              (VariableFits(v, len) && fo + len > |bytes| ==>
                 r.Ok? && r.value.Partial? && |bytes| + r.value.needed == fo + len) &&
              (Completes(r) ==>
                 r.value.item == (fo + len, Packet(h, VariableValue(v), bytes[fo + vo..fo + len])) &&
                 vo + |r.value.item.1.payload| == len)
  {
    assert FixedHeaderResult(bytes, fixed(bytes));
    var header := Read(fixed, bytes, 0);
    assert bytes[0..] == bytes;
    if Stops(header) then Propagate(header)
    else
      var (fixedHeaderOffset, fixedHeader) := header.value.item;
      var rest := bytes[fixedHeaderOffset..];
      var len := fixedHeader.remainingLength;
      var dispatched := variable(fixedHeader.packetType, rest);
      assert VariableHeaderResult(rest, dispatched);
      match dispatched
      case Some(result) =>
        if Stops(result) then Propagate(result)
        else
          var (variableHeaderOffset, variableHeader) := result.value.item;
          if variableHeaderOffset > len then Err(MalformedPacket)
          else
            var payloadLen := len - variableHeaderOffset;
            var available := |bytes| - (fixedHeaderOffset + variableHeaderOffset);
            var needed := payloadLen - Min(available, payloadLen);
            if needed > 0 then Ok(Partial(needed))
            else
              var start := fixedHeaderOffset + variableHeaderOffset;
              var payload := bytes[start..start + payloadLen];
              Ok(Complete((fixedHeaderOffset + len, Packet(fixedHeader, Some(variableHeader), payload))))
      case None =>
        var available := |bytes| - fixedHeaderOffset;
        var needed := len - Min(available, len);
        if needed > 0 then Ok(Partial(needed))
        else
          var payload := bytes[fixedHeaderOffset..fixedHeaderOffset + len];
          Ok(Complete((fixedHeaderOffset + len, Packet(fixedHeader, None, payload))))
  }

  /** `Packet::from_bytes` as written: the payload length is the remaining
      length minus the variable header's consumed count in wrapping `usize`
      arithmetic, with no check that the subtraction stays above zero. */
  function FromBytesAsWritten<VH>(fixed: FixedDecoder, variable: VariableDecoder<VH>, bytes: seq<byte>)
    : (r: Result<Status<(nat, Packet<VH>)>>)
    requires FixedHeaderDecoder(fixed) && VariableHeaderDecoder(variable)
    requires |bytes| <= MaxSliceLength
    ensures NoZeroPartial(r)
    ensures Completes(r) ==> r.value.item.0 <= |bytes|
  {
    assert FixedHeaderResult(bytes, fixed(bytes));
    var header := Read(fixed, bytes, 0);
    assert bytes[0..] == bytes;
    if Stops(header) then Propagate(header)
    else
      var (fixedHeaderOffset, fixedHeader) := header.value.item;
      var rest := bytes[fixedHeaderOffset..];
      var len := fixedHeader.remainingLength;
      var dispatched := variable(fixedHeader.packetType, rest);
      assert VariableHeaderResult(rest, dispatched);
      match dispatched
      case Some(result) =>
        if Stops(result) then Propagate(result)
        else
          var (variableHeaderOffset, variableHeader) := result.value.item;
          var payloadLen := WrappingSub(len, variableHeaderOffset);
          var available := |bytes| - (fixedHeaderOffset + variableHeaderOffset);
          var needed := payloadLen - Min(available, payloadLen);
          if needed > 0 then Ok(Partial(needed))
          else
            var start := fixedHeaderOffset + variableHeaderOffset;
            var payload := bytes[start..start + payloadLen];
            Ok(Complete((fixedHeaderOffset + len, Packet(fixedHeader, Some(variableHeader), payload))))
      case None =>
        var available := |bytes| - fixedHeaderOffset;
        var needed := len - Min(available, len);
        if needed > 0 then Ok(Partial(needed))
        else
          var payload := bytes[fixedHeaderOffset..fixedHeaderOffset + len];
          Ok(Complete((fixedHeaderOffset + len, Packet(fixedHeader, None, payload))))
  }

  /** The variable header of the decoded packet consumed more than the
      remaining length. */
  predicate VariableOverruns<VH>(fixed: FixedDecoder, variable: VariableDecoder<VH>, bytes: seq<byte>)
  {
    Completes(fixed(bytes)) && fixed(bytes).value.item.0 <= |bytes| &&
    var (fo, h) := fixed(bytes).value.item;
    var v := variable(h.packetType, bytes[fo..]);
    v.Some? && Completes(v.value) && v.value.value.item.0 > h.remainingLength
  }

  /** Wherever the variable header stays within the remaining length, the
      code as written and the corrected decoder agree. */
  lemma AsWrittenAgrees<VH>(fixed: FixedDecoder, variable: VariableDecoder<VH>, bytes: seq<byte>)
    requires FixedHeaderDecoder(fixed) && VariableHeaderDecoder(variable)
    requires |bytes| <= MaxSliceLength
    ensures !VariableOverruns(fixed, variable, bytes) <==>
              FromBytesAsWritten(fixed, variable, bytes) == FromBytes(fixed, variable, bytes)
  {
    assert FixedHeaderResult(bytes, fixed(bytes));
    if VariableOverruns(fixed, variable, bytes) {
      var (fo, h) := fixed(bytes).value.item;
      assert VariableHeaderResult(bytes[fo..], variable(h.packetType, bytes[fo..]));
      AsWrittenOverruns(fixed, variable, bytes);
    }
  }

  /** Where the variable header overruns the remaining length, the code as
      written wraps the payload length around and asks for more bytes than
      any slice can hold, where the corrected decoder reports a malformed
      packet. */
  lemma AsWrittenOverruns<VH>(fixed: FixedDecoder, variable: VariableDecoder<VH>, bytes: seq<byte>)
    requires FixedHeaderDecoder(fixed) && VariableHeaderDecoder(variable)
    requires |bytes| <= MaxSliceLength
    requires VariableOverruns(fixed, variable, bytes)
    ensures var (fo, h) := fixed(bytes).value.item;
            FromBytesAsWritten(fixed, variable, bytes) ==
              Ok(Partial(UsizeModulus - |bytes| + fo + h.remainingLength))
    ensures FromBytesAsWritten(fixed, variable, bytes).value.needed > MaxSliceLength
    ensures FromBytes(fixed, variable, bytes) == Err(MalformedPacket)
  {
    assert FixedHeaderResult(bytes, fixed(bytes));
    var (fo, h) := fixed(bytes).value.item;
    assert VariableHeaderResult(bytes[fo..], variable(h.packetType, bytes[fo..]));
    assert bytes[0..] == bytes;
  }

  /** The variable header of packet type `packetType`, read from `rest`,
      behaves on the first `j` bytes of `rest` as a prefix-monotone decoder:
      it gives the same result once `j` reaches the bytes it consumes, and
      asks for no more than the rest of them below that. */
  ghost predicate VariablePrefixMonotone<VH>(variable: VariableDecoder<VH>, packetType: nat, rest: seq<byte>, j: nat)
    requires VariableHeaderDecoder(variable)
    requires j <= |rest|
  {
    var v := variable(packetType, rest);
    var w := variable(packetType, rest[..j]);
    v.Some? && Completes(v.value) ==>
      var n := v.value.value.item.0;
      (n <= j ==> w.value == v.value) && (j < n ==> PartialWithin(w.value, j, n))
  }

  /** Partial monotonicity of a whole packet: a strict prefix of a packet
      the decoder completes on is reported as partial, asking for no more
      bytes than the packet has left. The fixed and variable header decoders
      are assumed prefix-monotone on the prefix. */
  lemma FromBytesPrefix<VH>(fixed: FixedDecoder, variable: VariableDecoder<VH>, bytes: seq<byte>, k: nat)
    requires FixedHeaderDecoder(fixed) && VariableHeaderDecoder(variable)
    requires Completes(FromBytes(fixed, variable, bytes))
    requires k < FromBytes(fixed, variable, bytes).value.item.0
    requires Completes(fixed(bytes)) && PrefixMonotone(fixed, bytes, k)
    requires var (fo, h) := fixed(bytes).value.item;
             fo <= k ==> VariablePrefixMonotone(variable, h.packetType, bytes[fo..], k - fo)
    ensures PartialWithin(FromBytes(fixed, variable, bytes[..k]), k, FromBytes(fixed, variable, bytes).value.item.0)
  {
    var prefix := bytes[..k];
    var (fo, h) := fixed(bytes).value.item;
    assert FixedHeaderResult(bytes, fixed(bytes));
    assert FixedHeaderResult(prefix, fixed(prefix));
    if fo <= k {
      assert fixed(prefix) == fixed(bytes);
      var v := variable(h.packetType, bytes[fo..]);
      assert prefix[fo..] == bytes[fo..][..k - fo];
      var w := variable(h.packetType, prefix[fo..]);
      assert VariableHeaderResult(bytes[fo..], v);
      assert VariableHeaderResult(prefix[fo..], w);
      assert w.Some? == v.Some?;
    }
  }

  /** The same holds for the code as written: on a prefix of a packet it
      completes on, the variable header cannot overrun, so it agrees with
      the corrected decoder. */
  lemma FromBytesAsWrittenPrefix<VH>(fixed: FixedDecoder, variable: VariableDecoder<VH>, bytes: seq<byte>, k: nat)
    requires FixedHeaderDecoder(fixed) && VariableHeaderDecoder(variable)
    requires |bytes| <= MaxSliceLength
    requires Completes(FromBytesAsWritten(fixed, variable, bytes))
    requires k < FromBytesAsWritten(fixed, variable, bytes).value.item.0
    requires Completes(fixed(bytes)) && PrefixMonotone(fixed, bytes, k)
    requires var (fo, h) := fixed(bytes).value.item;
             fo <= k ==> VariablePrefixMonotone(variable, h.packetType, bytes[fo..], k - fo)
    ensures PartialWithin(FromBytesAsWritten(fixed, variable, bytes[..k]), k,
                          FromBytesAsWritten(fixed, variable, bytes).value.item.0)
  {
    AsWrittenAgrees(fixed, variable, bytes);
    FromBytesPrefix(fixed, variable, bytes, k);
    AsWrittenAgrees(fixed, variable, bytes[..k]);
  }

  /** The variable headers this model dispatches to. */
  datatype VariableHeader = SubackHeader(suback: Suback.Suback)

  /** A dispatch that knows only the SUBACK variable header. */
  function SubackDispatch(packetType: nat, bytes: seq<byte>): (v: Option<Result<Status<(nat, VariableHeader)>>>)
    ensures v.Some? <==> packetType == SubackType
    ensures VariableHeaderResult(bytes, v)
    ensures packetType == SubackType ==>
              var s := Suback.FromBytes(bytes);
              (s.value.Partial? ==> v.value == Ok(Partial(s.value.needed))) &&
              (s.value.Complete? ==> v.value == Ok(Complete((s.value.item.0, SubackHeader(s.value.item.1)))))
  {
    if packetType != SubackType then None
    else
      var r := Suback.FromBytes(bytes);
      if r.value.Partial? then Some(Ok(Partial(r.value.needed)))
      else Some(Ok(Complete((r.value.item.0, SubackHeader(r.value.item.1)))))
  }

  /** The SUBACK variable header meets the prefix hypothesis of
      `FromBytesPrefix` on every prefix of its input. */
  lemma SubackDispatchPrefix(rest: seq<byte>, j: nat)
    requires j <= |rest|
    ensures VariableHeaderDecoder(SubackDispatch)
    ensures VariablePrefixMonotone(SubackDispatch, SubackType, rest, j)
  {
    if 2 <= j {
      assert rest[..j][0] == rest[0] && rest[..j][1] == rest[1];
    }
  }

  /** A SUBACK with remaining length 0 followed by the identifier bytes
      `[0x00, 0x05]`: its variable header is read past the packet's end. The
      code as written asks for 2^64 - 2 more bytes; the corrected decoder
      reports a malformed packet. */
  lemma EmptySubackExample(fixed: FixedDecoder)
    requires FixedHeaderDecoder(fixed)
    requires fixed([0x90, 0x00, 0x00, 0x05]) == Ok(Complete((2, FixedHeader(SubackType, 0, 0))))
    ensures FromBytesAsWritten(fixed, SubackDispatch, [0x90, 0x00, 0x00, 0x05]) ==
              Ok(Partial(UsizeModulus - 2))
    ensures FromBytes(fixed, SubackDispatch, [0x90, 0x00, 0x00, 0x05]) == Err(MalformedPacket)
  {
    var bytes: seq<byte> := [0x90, 0x00, 0x00, 0x05];
    assert bytes[2..] == [0x00, 0x05];
    assert Suback.FromBytes(bytes[2..]) == Ok(Complete((2, Suback.Suback(5))));
    assert VariableOverruns(fixed, SubackDispatch, bytes);
    AsWrittenOverruns(fixed, SubackDispatch, bytes);
  }
}
