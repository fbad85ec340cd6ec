/**
 * The CONNECT payload (section 3.1.3 of MQTT 3.1.1): a client identifier,
 * then, each only when its connect flag is set, a will (topic and message),
 * a user name and a password, in that order and each length-prefixed.
 */
module ConnectPayload {
  import opened Types
  import opened Status
  import opened Codec

  /** The three connect-flag bits that gate the optional payload fields. */
  datatype Flags = Flags(hasWill: bool, hasUsername: bool, hasPassword: bool)

  /** A will: a topic string and a message.  `Will::new` is this constructor. */
  datatype Will = Will(topic: seq<byte>, message: seq<byte>)

  /** A CONNECT payload.  Strings are held as their UTF-8 bytes. */
  datatype Connect = Connect(clientId: seq<byte>, will: Option<Will>,
                             username: Option<seq<byte>>, password: Option<seq<byte>>)

  /** The flags under which the fields present in `c` are exactly the ones read. */
  function FlagsOf(c: Connect): Flags {
    Flags(c.will.Some?, c.username.Some?, c.password.Some?)
  }

  /** The fields of a payload, in wire order. */
  function Fields(c: Connect): seq<seq<byte>> {
    [c.clientId] + WillFields(c.will) + OptionalField(c.username) + OptionalField(c.password)
  }

  function WillFields(will: Option<Will>): seq<seq<byte>> {
    if will.Some? then [will.value.topic, will.value.message] else []
  }

  function OptionalField(field: Option<seq<byte>>): seq<seq<byte>> {
    if field.Some? then [field.value] else []
  }

  /** Every field's length fits its 16-bit prefix. */
  predicate Representable(fields: seq<seq<byte>>) {
    forall i :: 0 <= i < |fields| ==> |fields[i]| <= 0xFFFF
  }

  /** The string fields (client identifier, will topic, user name) are UTF-8,
      as Rust's `&str` guarantees. */
  predicate StringsValid(c: Connect) {
    Utf8Valid(c.clientId) &&
    (c.will.Some? ==> Utf8Valid(c.will.value.topic)) &&
    (c.username.Some? ==> Utf8Valid(c.username.value))
  }

  /** The total size of the framed fields. */
  function FramedSize(fields: seq<seq<byte>>): nat {
    if fields == [] then 0 else 2 + |fields[0]| + FramedSize(fields[1..])
  }

  /** The framed size of `a + b` is that of `a` plus that of `b`. */
  lemma {:induction false} FramedSizeAppend(a: seq<seq<byte>>, b: seq<seq<byte>>)
    ensures FramedSize(a + b) == FramedSize(a) + FramedSize(b)
    decreases |a|
  {
    if a == [] {
      assert a + b == b;
    } else {
      assert (a + b)[1..] == a[1..] + b;
      FramedSizeAppend(a[1..], b);
    }
  }

  /** The fields, each length-prefixed, one after the other. */
  function Framed(fields: seq<seq<byte>>): (b: seq<byte>)
    requires Representable(fields)
    ensures |b| == FramedSize(fields)
  {
    if fields == [] then [] else LengthPrefixed(fields[0]) + Framed(fields[1..])
  }

  lemma {:induction false} FramedAppend(a: seq<seq<byte>>, b: seq<seq<byte>>)
    requires Representable(a) && Representable(b)
    ensures Representable(a + b)
    ensures Framed(a + b) == Framed(a) + Framed(b)
    decreases |a|
  {
    if a == [] {
      assert a + b == b;
    } else {
      var ab := a + b;
      assert ab[0] == a[0] && ab[1..] == a[1..] + b;
      FramedAppend(a[1..], b);
      assert Framed(ab) == LengthPrefixed(a[0]) + Framed(a[1..] + b);
    }
  }

  /** The wire image of a payload: what a correct encoder writes and what the
      decoder reads back. */
  function Image(c: Connect): (b: seq<byte>)
    requires Representable(Fields(c))
    ensures |b| == FramedSize(Fields(c))
  {
    Framed(Fields(c))
  }

  /** The prefix of `bytes` up to `o + n` is the prefix up to `o` followed by
      the first `n` bytes of the suffix at `o`. */
  lemma PrefixThen(bytes: seq<byte>, o: nat, n: nat)
    requires o + n <= |bytes|
    ensures bytes[..o + n] == bytes[..o] + bytes[o..][..n]
  {
  }

  // ---------------------------------------------------------------- decoding

  /** `Will::from_bytes`: the topic string, then the message bytes.  On
      completion the consumed bytes are exactly the two framed fields; the
      topic's error or partial result is returned unchanged. */
  function WillFromBytes(bytes: seq<byte>): (r: Result<Status<(nat, Will)>>)
    ensures NoZeroPartial(r)
    ensures Stops(ParseString(bytes)) ==> SameStop(r, ParseString(bytes))
    ensures Completes(ParseString(bytes)) ==>
              var o := ParseString(bytes).value.item.0;
              o <= |bytes| && (Stops(ParseBytes(bytes[o..])) ==> SameStop(r, ParseBytes(bytes[o..])))
    ensures Completes(r) ==> r.value.item.0 <= |bytes|
  {
    assert bytes[0..] == bytes;
    var offset := 0;
    var topicRead := Read(ParseString, bytes, offset);
    if Stops(topicRead) then Propagate(topicRead)
    else
      var (offset, topic) := topicRead.value.item;
      var messageRead := Read(ParseBytes, bytes, offset);
      if Stops(messageRead) then Propagate(messageRead)
      else
        var (offset, message) := messageRead.value.item;
        Ok(Complete((offset, Will(topic, message))))
  }

  /** What `Will::from_bytes` accepts: on completion the consumed bytes are
      exactly the two framed fields, and the topic is well-formed UTF-8. */
  lemma WillFromBytesSound(bytes: seq<byte>)
    requires Completes(WillFromBytes(bytes))
    ensures var (n, w) := WillFromBytes(bytes).value.item;
            Representable([w.topic, w.message]) && Utf8Valid(w.topic) &&
            n == 4 + |w.topic| + |w.message| <= |bytes| &&
            bytes[..n] == Framed([w.topic, w.message])
  {
    assert bytes[0..] == bytes;
    var (o1, topic) := Read(ParseString, bytes, 0).value.item;
    var (n, message) := Read(ParseBytes, bytes, o1).value.item;
    PrefixThen(bytes, 2 + |topic|, 2 + |message|);
    FramedPair(topic, message);
  }

  /** A framed will decodes back to itself, whatever follows it. */
  lemma WillFromBytesOfFramed(w: Will, rest: seq<byte>)
    requires Representable([w.topic, w.message]) && Utf8Valid(w.topic)
    ensures WillFromBytes(Framed([w.topic, w.message]) + rest)
              == Ok(Complete((4 + |w.topic| + |w.message|, w)))
  {
    FramedPair(w.topic, w.message);
    var head := LengthPrefixed(w.topic);
    var tail := LengthPrefixed(w.message) + rest;
    assert Framed([w.topic, w.message]) + rest == head + tail;
    WillFieldsRead(w, rest);
  }

  /** `Will::from_bytes` completes with what its two `read!` steps return. */
  lemma WillFromReads(bytes: seq<byte>, o: nat, topic: seq<byte>, n: nat, message: seq<byte>)
    requires Read(ParseString, bytes, 0) == Ok(Complete((o, topic)))
    requires o <= |bytes| && Read(ParseBytes, bytes, o) == Ok(Complete((n, message)))
    ensures WillFromBytes(bytes) == Ok(Complete((n, Will(topic, message))))
  {
  }

  /** The two `read!` steps of `Will::from_bytes` on a framed will. */
  lemma WillFieldsRead(w: Will, rest: seq<byte>)
    requires |w.topic| <= 0xFFFF && |w.message| <= 0xFFFF && Utf8Valid(w.topic)
    ensures WillFromBytes(LengthPrefixed(w.topic) + (LengthPrefixed(w.message) + rest))
              == Ok(Complete((4 + |w.topic| + |w.message|, w)))
  {
    var head := LengthPrefixed(w.topic);
    var tail := LengthPrefixed(w.message) + rest;
    ReadStringAt([], w.topic, tail);
    assert [] + (head + tail) == head + tail;
    ReadBytesAt(head, w.message, rest);
    WillFromReads(head + tail, 2 + |w.topic|, w.topic, 4 + |w.topic| + |w.message|, w.message);
  }

  lemma FramedPair(a: seq<byte>, b: seq<byte>)
    requires Representable([a, b])
    ensures |a| <= 0xFFFF && |b| <= 0xFFFF
    ensures Framed([a, b]) == LengthPrefixed(a) + LengthPrefixed(b)
  {
    assert [a, b][0] == a && [a, b][1] == b;
    assert [a, b][1..] == [b];
    assert Framed([b]) == LengthPrefixed(b) + Framed([]);
  }

  /** One optional field (the `if flags.has_…() { read!(…) } else { None }`
      blocks): absent, it consumes nothing; present, it is `read!`. */
  function ReadIf<T>(present: bool, parse: seq<byte> -> Result<Status<(nat, T)>>,
                     bytes: seq<byte>, offset: nat): (r: Result<Status<(nat, Option<T>)>>)
    requires offset <= |bytes|
    ensures !present ==> r == Ok(Complete((offset, None)))
    ensures present ==> (Stops(r) <==> Stops(parse(bytes[offset..])))
    ensures present && Stops(r) ==> SameStop(r, parse(bytes[offset..]))
    ensures present && Completes(r) ==>
              r.value.item.0 == offset + parse(bytes[offset..]).value.item.0 &&
              r.value.item.1 == Some(parse(bytes[offset..]).value.item.1)
    ensures NoZeroPartial(parse(bytes[offset..])) ==> NoZeroPartial(r)
  {
    if !present then Ok(Complete((offset, None)))
    else
      var read := Read(parse, bytes, offset);
      if Stops(read) then Propagate(read)
      else Ok(Complete((read.value.item.0, Some(read.value.item.1))))
  }

  /** `Connect::from_bytes`, as written: the client identifier from offset 0,
      then each optional field only when its flag is set.  When the password
      flag is set, the password stored is the whole input `bytes`, not the
      password field that was read (see `ConnectFromBytesIntended`). */
  function ConnectFromBytes(flags: Flags, bytes: seq<byte>): (r: Result<Status<(nat, Connect)>>)
    ensures NoZeroPartial(r)
    ensures Stops(ParseString(bytes)) ==> SameStop(r, ParseString(bytes))
    ensures Completes(r) ==>
              var (n, c) := r.value.item;
              n <= |bytes| && (c.password.Some? ==> c.password.value == bytes)
  {
    var offset := 0;
    var idRead := Read(ParseString, bytes, offset);
    if Stops(idRead) then Propagate(idRead)
    else
      var (offset, clientId) := idRead.value.item;
      var willRead := ReadIf(flags.hasWill, WillFromBytes, bytes, offset);
      if Stops(willRead) then Propagate(willRead)
      else
        var (offset, will) := willRead.value.item;
        var usernameRead := ReadIf(flags.hasUsername, ParseString, bytes, offset);
        if Stops(usernameRead) then Propagate(usernameRead)
        else
          var (offset, username) := usernameRead.value.item;
          var passwordRead := ReadIf(flags.hasPassword, ParseBytes, bytes, offset);
          if Stops(passwordRead) then Propagate(passwordRead)
          else
            var (offset, password) := passwordRead.value.item;
            Ok(Complete((offset, Connect(clientId, will, username,
                                         if password.Some? then Some(bytes) else None))))
  }

  /** `Connect::from_bytes` as evidently intended: the password stored is the
      password field that was read. */
  function ConnectFromBytesIntended(flags: Flags, bytes: seq<byte>): (r: Result<Status<(nat, Connect)>>)
    ensures NoZeroPartial(r)
    ensures Stops(ParseString(bytes)) ==> SameStop(r, ParseString(bytes))
    ensures Completes(r) ==> r.value.item.0 <= |bytes|
  {
    var offset := 0;
    var idRead := Read(ParseString, bytes, offset);
    if Stops(idRead) then Propagate(idRead)
    else
      var (offset, clientId) := idRead.value.item;
      var willRead := ReadIf(flags.hasWill, WillFromBytes, bytes, offset);
      if Stops(willRead) then Propagate(willRead)
      else
        var (offset, will) := willRead.value.item;
        var usernameRead := ReadIf(flags.hasUsername, ParseString, bytes, offset);
        if Stops(usernameRead) then Propagate(usernameRead)
        else
          var (offset, username) := usernameRead.value.item;
          var passwordRead := ReadIf(flags.hasPassword, ParseBytes, bytes, offset);
          if Stops(passwordRead) then Propagate(passwordRead)
          else
            var (offset, password) := passwordRead.value.item;
            Ok(Complete((offset, Connect(clientId, will, username, password))))
  }

  // ------------------------------------------------------ reading framed fields

  lemma ReadStringAt(head: seq<byte>, s: seq<byte>, tail: seq<byte>)
    requires |s| <= 0xFFFF && Utf8Valid(s)
    ensures Read(ParseString, head + (LengthPrefixed(s) + tail), |head|)
              == Ok(Complete((|head| + 2 + |s|, s)))
  {
    var bytes := head + (LengthPrefixed(s) + tail);
    assert bytes[|head|..] == LengthPrefixed(s) + tail;
    ParseStringOfLengthPrefixed(s, tail);
  }

  lemma ReadBytesAt(head: seq<byte>, field: seq<byte>, tail: seq<byte>)
    requires |field| <= 0xFFFF
    ensures Read(ParseBytes, head + (LengthPrefixed(field) + tail), |head|)
              == Ok(Complete((|head| + 2 + |field|, field)))
  {
    var bytes := head + (LengthPrefixed(field) + tail);
    assert bytes[|head|..] == LengthPrefixed(field) + tail;
    ParseBytesOfLengthPrefixed(field, tail);
  }

  lemma ReadIfWillAt(will: Option<Will>, bytes: seq<byte>, head: seq<byte>, tail: seq<byte>)
    requires Representable(WillFields(will)) && (will.Some? ==> Utf8Valid(will.value.topic))
    requires bytes == head + (Framed(WillFields(will)) + tail)
    ensures ReadIf(will.Some?, WillFromBytes, bytes, |head|)
              == Ok(Complete((|head + Framed(WillFields(will))|, will)))
  {
    if will.Some? {
      var w := will.value;
      assert WillFields(will) == [w.topic, w.message];
      ReadWillAt(w, bytes, head, tail);
    } else {
      assert Framed(WillFields(will)) == [];
    }
  }

  /** `ReadIf` of a framed will: the will, and the offset just past it. */
  lemma ReadWillAt(w: Will, bytes: seq<byte>, head: seq<byte>, tail: seq<byte>)
    requires Representable([w.topic, w.message]) && Utf8Valid(w.topic)
    requires bytes == head + (Framed([w.topic, w.message]) + tail)
    ensures ReadIf(true, WillFromBytes, bytes, |head|)
              == Ok(Complete((|head + Framed([w.topic, w.message])|, Some(w))))
  {
    assert bytes[|head|..] == Framed([w.topic, w.message]) + tail;
    WillFromBytesOfFramed(w, tail);
    FramedPair(w.topic, w.message);
    ReadWill(w, bytes, |head|);
  }

  /** `ReadIf` of a will that `Will::from_bytes` decodes completely. */
  lemma ReadWill(w: Will, bytes: seq<byte>, offset: nat)
    requires offset <= |bytes|
    requires WillFromBytes(bytes[offset..]) == Ok(Complete((4 + |w.topic| + |w.message|, w)))
    ensures ReadIf(true, WillFromBytes, bytes, offset)
              == Ok(Complete((offset + 4 + |w.topic| + |w.message|, Some(w))))
  {
  }

  lemma ReadIfStringAt(field: Option<seq<byte>>, bytes: seq<byte>, head: seq<byte>, tail: seq<byte>)
    requires Representable(OptionalField(field)) && (field.Some? ==> Utf8Valid(field.value))
    requires bytes == head + (Framed(OptionalField(field)) + tail)
    ensures ReadIf(field.Some?, ParseString, bytes, |head|)
              == Ok(Complete((|head + Framed(OptionalField(field))|, field)))
  {
    if field.Some? {
      assert Framed(OptionalField(field)) == LengthPrefixed(field.value) by {
        assert OptionalField(field)[0] == field.value && OptionalField(field)[1..] == [];
      }
      ReadStringAt(head, field.value, tail);
    } else {
      assert Framed(OptionalField(field)) == [];
    }
  }

  lemma ReadIfBytesAt(field: Option<seq<byte>>, bytes: seq<byte>, head: seq<byte>, tail: seq<byte>)
    requires Representable(OptionalField(field))
    requires bytes == head + (Framed(OptionalField(field)) + tail)
    ensures ReadIf(field.Some?, ParseBytes, bytes, |head|)
              == Ok(Complete((|head + Framed(OptionalField(field))|, field)))
  {
    if field.Some? {
      assert Framed(OptionalField(field)) == LengthPrefixed(field.value) by {
        assert OptionalField(field)[0] == field.value && OptionalField(field)[1..] == [];
      }
      ReadBytesAt(head, field.value, tail);
    } else {
      assert Framed(OptionalField(field)) == [];
    }
  }

  lemma RepresentableSplit(a: seq<seq<byte>>, b: seq<seq<byte>>)
    ensures Representable(a + b) <==> Representable(a) && Representable(b)
  {
    if Representable(a + b) {
      forall i | 0 <= i < |a| ensures |a[i]| <= 0xFFFF {
        assert a[i] == (a + b)[i];
      }
      forall i | 0 <= i < |b| ensures |b[i]| <= 0xFFFF {
        assert b[i] == (a + b)[|a| + i];
      }
    }
    if Representable(a) && Representable(b) {
      forall i | 0 <= i < |a + b| ensures |(a + b)[i]| <= 0xFFFF {
        if i >= |a| {
          assert (a + b)[i] == b[i - |a|];
        }
      }
    }
  }

  /** The fields of a payload are representable exactly when those of each
      part are, and then its image is the framed identifier, will, user name
      and password, one after the other. */
  lemma ImageParts(c: Connect)
    ensures Representable(Fields(c)) <==>
              Representable([c.clientId]) && Representable(WillFields(c.will)) &&
              Representable(OptionalField(c.username)) && Representable(OptionalField(c.password))
    ensures Representable(Fields(c)) ==>
              Image(c) == Framed([c.clientId]) + Framed(WillFields(c.will)) +
                          Framed(OptionalField(c.username)) + Framed(OptionalField(c.password))
  {
    var f1: seq<seq<byte>> := [c.clientId];
    var f2, f3, f4 := WillFields(c.will), OptionalField(c.username), OptionalField(c.password);
    assert Fields(c) == f1 + f2 + f3 + f4;
    RepresentableSplit(f1 + f2 + f3, f4);
    RepresentableSplit(f1 + f2, f3);
    RepresentableSplit(f1, f2);
    if Representable(Fields(c)) {
      FramedAppend(f1, f2);
      FramedAppend(f1 + f2, f3);
      FramedAppend(f1 + f2 + f3, f4);
    }
  }

  /** Round trip: the image of a payload, decoded under the payload's own
      flags, gives back the payload and consumes exactly its image; the bytes
      after it are not looked at. */
  lemma {:induction false} ConnectRoundTrip(c: Connect, rest: seq<byte>)
    requires Representable(Fields(c)) && StringsValid(c)
    ensures ConnectFromBytesIntended(FlagsOf(c), Image(c) + rest)
              == Ok(Complete((|Image(c)|, c)))
  {
    ImageParts(c);
    var p1, p2 := Framed([c.clientId]), Framed(WillFields(c.will));
    var p3, p4 := Framed(OptionalField(c.username)), Framed(OptionalField(c.password));
    var bytes := p1 + (p2 + (p3 + (p4 + rest)));
    Associate(p1, p2, p3, p4, rest);
    assert p1 == LengthPrefixed(c.clientId) by {
      assert [c.clientId][0] == c.clientId && [c.clientId][1..] == [];
    }
    ReadStringAt([], c.clientId, p2 + (p3 + (p4 + rest)));
    assert Read(ParseString, bytes, 0) == Ok(Complete((|p1|, c.clientId)));
    ReadIfWillAt(c.will, bytes, p1, p3 + (p4 + rest));
    ReadIfStringAt(c.username, bytes, p1 + p2, p4 + rest);
    ReadIfBytesAt(c.password, bytes, p1 + p2 + p3, rest);
    DecodeSteps(FlagsOf(c), bytes, c, |p1|, |p1 + p2|, |p1 + p2 + p3|, |p1 + p2 + p3 + p4|);
  }

  lemma Associate(p1: seq<byte>, p2: seq<byte>, p3: seq<byte>, p4: seq<byte>, rest: seq<byte>)
    ensures p1 + p2 + p3 + p4 + rest == p1 + (p2 + (p3 + (p4 + rest)))
    ensures [] + (p1 + (p2 + (p3 + (p4 + rest)))) == p1 + (p2 + (p3 + (p4 + rest)))
    ensures (p1 + p2) + (p3 + (p4 + rest)) == p1 + (p2 + (p3 + (p4 + rest)))
    ensures (p1 + p2 + p3) + (p4 + rest) == p1 + (p2 + (p3 + (p4 + rest)))
  {
  }

  /** The intended decoder completes with `c` once each of its four reads has
      completed with the corresponding field of `c`. */
  lemma DecodeSteps(flags: Flags, bytes: seq<byte>, c: Connect, o1: nat, o2: nat, o3: nat, o4: nat)
    requires flags == FlagsOf(c)
    requires Read(ParseString, bytes, 0) == Ok(Complete((o1, c.clientId)))
    requires o1 <= |bytes| && ReadIf(c.will.Some?, WillFromBytes, bytes, o1) == Ok(Complete((o2, c.will)))
    requires o2 <= |bytes| && ReadIf(c.username.Some?, ParseString, bytes, o2) == Ok(Complete((o3, c.username)))
    requires o3 <= |bytes| && ReadIf(c.password.Some?, ParseBytes, bytes, o3) == Ok(Complete((o4, c.password)))
    ensures ConnectFromBytesIntended(flags, bytes) == Ok(Complete((o4, c)))
  {
  }

  // ------------------------------------------------- what the decoder accepts

  lemma StringFieldFramed(bytes: seq<byte>)
    requires Completes(Read(ParseString, bytes, 0))
    ensures var (o, s) := Read(ParseString, bytes, 0).value.item;
            o <= |bytes| && Representable([s]) && Utf8Valid(s) && bytes[..o] == Framed([s])
  {
    assert bytes[0..] == bytes;
    var s := ParseString(bytes).value.item.1;
    var tail: seq<seq<byte>> := [];
    assert [s] == [s] + tail;
  }

  lemma ReadIfWillFramed(present: bool, bytes: seq<byte>, o: nat)
    requires o <= |bytes| && Completes(ReadIf(present, WillFromBytes, bytes, o))
    ensures var (o', will) := ReadIf(present, WillFromBytes, bytes, o).value.item;
            o <= o' <= |bytes| && (will.Some? <==> present) &&
            Representable(WillFields(will)) && (will.Some? ==> Utf8Valid(will.value.topic)) &&
            bytes[o..o'] == Framed(WillFields(will))
  {
    if present {
      WillFromBytesSound(bytes[o..]);
    }
  }

  lemma ReadIfStringFramed(present: bool, bytes: seq<byte>, o: nat)
    requires o <= |bytes| && Completes(ReadIf(present, ParseString, bytes, o))
    ensures var (o', field) := ReadIf(present, ParseString, bytes, o).value.item;
            o <= o' <= |bytes| && (field.Some? <==> present) &&
            Representable(OptionalField(field)) && (field.Some? ==> Utf8Valid(field.value)) &&
            bytes[o..o'] == Framed(OptionalField(field))
  {
    var (o', field) := ReadIf(present, ParseString, bytes, o).value.item;
    if present {
      assert OptionalField(field)[0] == field.value && OptionalField(field)[1..] == [];
    }
  }

  lemma ReadIfBytesFramed(present: bool, bytes: seq<byte>, o: nat)
    requires o <= |bytes| && Completes(ReadIf(present, ParseBytes, bytes, o))
    ensures var (o', field) := ReadIf(present, ParseBytes, bytes, o).value.item;
            o <= o' <= |bytes| && (field.Some? <==> present) &&
            Representable(OptionalField(field)) &&
            bytes[o..o'] == Framed(OptionalField(field))
  {
    var (o', field) := ReadIf(present, ParseBytes, bytes, o).value.item;
    if present {
      assert OptionalField(field)[0] == field.value && OptionalField(field)[1..] == [];
    }
  }

  lemma Slices(bytes: seq<byte>, o1: nat, o2: nat, o3: nat, o4: nat)
    requires o1 <= o2 <= o3 <= o4 <= |bytes|
    ensures bytes[..o4] == bytes[..o1] + bytes[o1..o2] + bytes[o2..o3] + bytes[o3..o4]
  {
  }

  /** A completed intended decode is made of four completed reads, each
      starting where the one before it ended. */
  lemma DecodeStepsBack(flags: Flags, bytes: seq<byte>)
    requires Completes(ConnectFromBytesIntended(flags, bytes))
    ensures Completes(Read(ParseString, bytes, 0))
    ensures var (o1, clientId) := Read(ParseString, bytes, 0).value.item;
            o1 <= |bytes| && Completes(ReadIf(flags.hasWill, WillFromBytes, bytes, o1)) &&
            var (o2, will) := ReadIf(flags.hasWill, WillFromBytes, bytes, o1).value.item;
            o2 <= |bytes| && Completes(ReadIf(flags.hasUsername, ParseString, bytes, o2)) &&
            var (o3, username) := ReadIf(flags.hasUsername, ParseString, bytes, o2).value.item;
            o3 <= |bytes| && Completes(ReadIf(flags.hasPassword, ParseBytes, bytes, o3)) &&
            var (o4, password) := ReadIf(flags.hasPassword, ParseBytes, bytes, o3).value.item;
            ConnectFromBytesIntended(flags, bytes) ==
              Ok(Complete((o4, Connect(clientId, will, username, password))))
  {
    var idRead := Read(ParseString, bytes, 0);
    assert Completes(idRead);
    var (o1, clientId) := idRead.value.item;
    var willRead := ReadIf(flags.hasWill, WillFromBytes, bytes, o1);
    assert Completes(willRead);
    var (o2, will) := willRead.value.item;
    var usernameRead := ReadIf(flags.hasUsername, ParseString, bytes, o2);
    assert Completes(usernameRead);
    var (o3, username) := usernameRead.value.item;
    var passwordRead := ReadIf(flags.hasPassword, ParseBytes, bytes, o3);
    assert Completes(passwordRead);
  }

  /** Four consecutive slices holding the framed parts of `c` hold its image. */
  lemma ImageOfSlices(bytes: seq<byte>, c: Connect, o1: nat, o2: nat, o3: nat, o4: nat)
    requires o1 <= o2 <= o3 <= o4 <= |bytes|
    requires Representable([c.clientId]) && bytes[..o1] == Framed([c.clientId])
    requires Representable(WillFields(c.will)) && bytes[o1..o2] == Framed(WillFields(c.will))
    requires Representable(OptionalField(c.username)) && bytes[o2..o3] == Framed(OptionalField(c.username))
    requires Representable(OptionalField(c.password)) && bytes[o3..o4] == Framed(OptionalField(c.password))
    ensures Representable(Fields(c)) && bytes[..o4] == Image(c)
  {
    ImageParts(c);
    Slices(bytes, o1, o2, o3, o4);
  }

  /** Everything the intended decoder accepts is the image of what it returns:
      the consumed bytes are exactly the framed fields, in wire order, the
      fields present are exactly the ones the flags select, and the strings
      are well-formed UTF-8. */
  lemma ConnectFromBytesIntendedSound(flags: Flags, bytes: seq<byte>)
    requires Completes(ConnectFromBytesIntended(flags, bytes))
    ensures var (n, c) := ConnectFromBytesIntended(flags, bytes).value.item;
            FlagsOf(c) == flags && StringsValid(c) && Representable(Fields(c)) &&
            n <= |bytes| && bytes[..n] == Image(c)
  {
    DecodeStepsBack(flags, bytes);
    var (o1, clientId) := Read(ParseString, bytes, 0).value.item;
    StringFieldFramed(bytes);
    var (o2, will) := ReadIf(flags.hasWill, WillFromBytes, bytes, o1).value.item;
    ReadIfWillFramed(flags.hasWill, bytes, o1);
    var (o3, username) := ReadIf(flags.hasUsername, ParseString, bytes, o2).value.item;
    ReadIfStringFramed(flags.hasUsername, bytes, o2);
    var (o4, password) := ReadIf(flags.hasPassword, ParseBytes, bytes, o3).value.item;
    ReadIfBytesFramed(flags.hasPassword, bytes, o3);
    ImageOfSlices(bytes, Connect(clientId, will, username, password), o1, o2, o3, o4);
  }

  // ------------------------------------- the decoder as written vs as intended

  /** The decoder as written reads the same fields as the intended one, stops
      exactly where it stops, and differs only in the password it returns: the
      whole input instead of the field it has just parsed. */
  lemma ConnectFromBytesStoresInput(flags: Flags, bytes: seq<byte>)
    ensures Stops(ConnectFromBytes(flags, bytes)) <==> Stops(ConnectFromBytesIntended(flags, bytes))
    ensures Stops(ConnectFromBytesIntended(flags, bytes)) ==>
              ConnectFromBytes(flags, bytes) == ConnectFromBytesIntended(flags, bytes)
    ensures Completes(ConnectFromBytesIntended(flags, bytes)) ==>
              var (n, c) := ConnectFromBytesIntended(flags, bytes).value.item;
              ConnectFromBytes(flags, bytes) ==
                Ok(Complete((n, c.(password := if c.password.Some? then Some(bytes) else None))))
  {
    var idRead := Read(ParseString, bytes, 0);
    if Stops(idRead) {
      return;
    }
    var (o1, clientId) := idRead.value.item;
    var willRead := ReadIf(flags.hasWill, WillFromBytes, bytes, o1);
    if Stops(willRead) {
      return;
    }
    var (o2, will) := willRead.value.item;
    var usernameRead := ReadIf(flags.hasUsername, ParseString, bytes, o2);
    if Stops(usernameRead) {
      return;
    }
    var (o3, username) := usernameRead.value.item;
    var passwordRead := ReadIf(flags.hasPassword, ParseBytes, bytes, o3);
    if Stops(passwordRead) {
      return;
    }
    var (o4, password) := passwordRead.value.item;
    var c := Connect(clientId, will, username, password);
    assert ConnectFromBytesIntended(flags, bytes) == Ok(Complete((o4, c)));
  }

  /** An error or partial result of any of the later reads (the will, with
      its own nested reads, the user name or the password) is what
      `Connect::from_bytes` returns. */
  lemma ConnectFromBytesPropagates(flags: Flags, bytes: seq<byte>)
    ensures var idRead := Read(ParseString, bytes, 0);
            Completes(idRead) && idRead.value.item.0 <= |bytes| ==>
            var willRead := ReadIf(flags.hasWill, WillFromBytes, bytes, idRead.value.item.0);
            (Stops(willRead) ==> SameStop(ConnectFromBytes(flags, bytes), willRead)) &&
            (Completes(willRead) && willRead.value.item.0 <= |bytes| ==>
             var usernameRead := ReadIf(flags.hasUsername, ParseString, bytes, willRead.value.item.0);
             (Stops(usernameRead) ==> SameStop(ConnectFromBytes(flags, bytes), usernameRead)) &&
             (Completes(usernameRead) && usernameRead.value.item.0 <= |bytes| ==>
              var passwordRead := ReadIf(flags.hasPassword, ParseBytes, bytes, usernameRead.value.item.0);
              Stops(passwordRead) ==> SameStop(ConnectFromBytes(flags, bytes), passwordRead)))
  {
    var idRead := Read(ParseString, bytes, 0);
    if !Completes(idRead) || idRead.value.item.0 > |bytes| {
      return;
    }
    var willRead := ReadIf(flags.hasWill, WillFromBytes, bytes, idRead.value.item.0);
    if !Completes(willRead) || willRead.value.item.0 > |bytes| {
      return;
    }
    var usernameRead := ReadIf(flags.hasUsername, ParseString, bytes, willRead.value.item.0);
    if !Completes(usernameRead) || usernameRead.value.item.0 > |bytes| {
      return;
    }
    var passwordRead := ReadIf(flags.hasPassword, ParseBytes, bytes, usernameRead.value.item.0);
  }

  // ------------------------------------------------- decoding a prefix

  /** `Will::from_bytes` on a prefix of a will it decodes: partially
      monotone, like the two field decoders it is made of. */
  lemma WillFromBytesPrefix(bytes: seq<byte>, k: nat)
    requires Completes(WillFromBytes(bytes)) && k <= |bytes|
    ensures PrefixMonotone(WillFromBytes, bytes, k)
  {
    var prefix := bytes[..k];
    assert bytes[0..] == bytes && prefix[0..] == prefix;
    ParseStringPrefix(bytes, k);
    var (o, topic) := ParseString(bytes).value.item;
    if k < o {
      return;
    }
    var rest := bytes[o..];
    assert prefix[o..] == rest[..k - o];
    ParseBytesPrefix(rest, k - o);
    var (m, message) := ParseBytes(rest).value.item;
    WillFromReads(bytes, o, topic, o + m, message);
    if k < o + m {
      return;
    }
    WillFromReads(prefix, o, topic, o + m, message);
  }

  /** An optional field read from a prefix of the input: the same result
      once the prefix reaches the field's end, otherwise a partial result
      that asks for no more than the rest of the field. */
  lemma ReadIfPrefix<T>(present: bool, parse: seq<byte> -> Result<Status<(nat, T)>>,
                        bytes: seq<byte>, offset: nat, k: nat)
    requires offset <= k <= |bytes|
    requires Completes(ReadIf(present, parse, bytes, offset))
    requires present ==> Completes(parse(bytes[offset..])) &&
                         PrefixMonotone(parse, bytes[offset..], k - offset)
    ensures var end := ReadIf(present, parse, bytes, offset).value.item.0;
            (end <= k ==> ReadIf(present, parse, bytes[..k], offset) == ReadIf(present, parse, bytes, offset)) &&
            (k < end ==> PartialWithin(ReadIf(present, parse, bytes[..k], offset), k, end))
  {
    assert bytes[..k][offset..] == bytes[offset..][..k - offset];
  }

  /** Partial monotonicity of the intended decoder: given fewer bytes than
      it consumes from a complete input, it asks for at least one more byte
      and never for more than the rest of the payload. */
  lemma ConnectFromBytesIntendedPrefix(flags: Flags, bytes: seq<byte>, k: nat)
    requires Completes(ConnectFromBytesIntended(flags, bytes))
    requires k < ConnectFromBytesIntended(flags, bytes).value.item.0
    ensures PartialWithin(ConnectFromBytesIntended(flags, bytes[..k]), k,
                          ConnectFromBytesIntended(flags, bytes).value.item.0)
  {
    DecodeStepsBack(flags, bytes);
    var prefix := bytes[..k];
    assert bytes[0..] == bytes && prefix[0..] == prefix;
    ParseStringPrefix(bytes, k);
    var (o1, clientId) := Read(ParseString, bytes, 0).value.item;
    if k < o1 {
      return;
    }
    assert Read(ParseString, prefix, 0) == Read(ParseString, bytes, 0);
    var (o2, will) := ReadIf(flags.hasWill, WillFromBytes, bytes, o1).value.item;
    WillStagePrefix(flags.hasWill, bytes, o1, k);
    if k < o2 {
      ConnectFromBytesPropagates(flags, prefix);
      PrefixStops(flags, prefix, k, o2, ReadIf(flags.hasWill, WillFromBytes, prefix, o1));
      return;
    }
    var (o3, username) := ReadIf(flags.hasUsername, ParseString, bytes, o2).value.item;
    StringStagePrefix(flags.hasUsername, bytes, o2, k);
    if k < o3 {
      ConnectFromBytesPropagates(flags, prefix);
      PrefixStops(flags, prefix, k, o3, ReadIf(flags.hasUsername, ParseString, prefix, o2));
      return;
    }
    var (o4, password) := ReadIf(flags.hasPassword, ParseBytes, bytes, o3).value.item;
    BytesStagePrefix(flags.hasPassword, bytes, o3, k);
    ConnectFromBytesPropagates(flags, prefix);
    PrefixStops(flags, prefix, k, o4, ReadIf(flags.hasPassword, ParseBytes, prefix, o3));
  }

  /** Partial monotonicity of each optional read of `Connect::from_bytes`:
      the will, a string field, a bytes field. */
  lemma WillStagePrefix(present: bool, bytes: seq<byte>, offset: nat, k: nat)
    requires offset <= k <= |bytes| && Completes(ReadIf(present, WillFromBytes, bytes, offset))
    ensures var end := ReadIf(present, WillFromBytes, bytes, offset).value.item.0;
            (end <= k ==> ReadIf(present, WillFromBytes, bytes[..k], offset) == ReadIf(present, WillFromBytes, bytes, offset)) &&
            (k < end ==> PartialWithin(ReadIf(present, WillFromBytes, bytes[..k], offset), k, end))
  {
    if present {
      WillFromBytesPrefix(bytes[offset..], k - offset);
    }
    ReadIfPrefix(present, WillFromBytes, bytes, offset, k);
  }

  lemma StringStagePrefix(present: bool, bytes: seq<byte>, offset: nat, k: nat)
    requires offset <= k <= |bytes| && Completes(ReadIf(present, ParseString, bytes, offset))
    ensures var end := ReadIf(present, ParseString, bytes, offset).value.item.0;
            (end <= k ==> ReadIf(present, ParseString, bytes[..k], offset) == ReadIf(present, ParseString, bytes, offset)) &&
            (k < end ==> PartialWithin(ReadIf(present, ParseString, bytes[..k], offset), k, end))
  {
    if present {
      ParseStringPrefix(bytes[offset..], k - offset);
    }
    ReadIfPrefix(present, ParseString, bytes, offset, k);
  }

  lemma BytesStagePrefix(present: bool, bytes: seq<byte>, offset: nat, k: nat)
    requires offset <= k <= |bytes| && Completes(ReadIf(present, ParseBytes, bytes, offset))
    ensures var end := ReadIf(present, ParseBytes, bytes, offset).value.item.0;
            (end <= k ==> ReadIf(present, ParseBytes, bytes[..k], offset) == ReadIf(present, ParseBytes, bytes, offset)) &&
            (k < end ==> PartialWithin(ReadIf(present, ParseBytes, bytes[..k], offset), k, end))
  {
    if present {
      ParseBytesPrefix(bytes[offset..], k - offset);
    }
    ReadIfPrefix(present, ParseBytes, bytes, offset, k);
  }

  /** When one of the later reads stops on a prefix, partially within `end`,
      so does the intended decoder. */
  lemma PrefixStops<T>(flags: Flags, prefix: seq<byte>, k: nat, end: nat, r: Result<Status<T>>)
    requires PartialWithin(r, k, end)
    requires SameStop(ConnectFromBytes(flags, prefix), r) || SameStop(ConnectFromBytesIntended(flags, prefix), r)
    ensures PartialWithin(ConnectFromBytesIntended(flags, prefix), k, end)
  {
    ConnectFromBytesStoresInput(flags, prefix);
  }

  /** The same for `Connect::from_bytes` as written, which stops exactly
      where the intended decoder does. */
  lemma ConnectFromBytesPrefix(flags: Flags, bytes: seq<byte>, k: nat)
    requires Completes(ConnectFromBytes(flags, bytes))
    requires k < ConnectFromBytes(flags, bytes).value.item.0
    ensures PartialWithin(ConnectFromBytes(flags, bytes[..k]), k,
                          ConnectFromBytes(flags, bytes).value.item.0)
  {
    ConnectFromBytesStoresInput(flags, bytes);
    ConnectFromBytesStoresInput(flags, bytes[..k]);
    ConnectFromBytesIntendedPrefix(flags, bytes, k);
  }

  /** Every proper prefix of a payload's wire image is partial for the
      intended decoder, asking for at most the bytes still missing. */
  lemma ConnectPrefix(c: Connect, k: nat)
    requires Representable(Fields(c)) && StringsValid(c) && k < |Image(c)|
    ensures PartialWithin(ConnectFromBytesIntended(FlagsOf(c), Image(c)[..k]), k, |Image(c)|)
  {
    ConnectRoundTrip(c, []);
    assert Image(c) + [] == Image(c);
    ConnectFromBytesIntendedPrefix(FlagsOf(c), Image(c), k);
  }

  /** The same for `Connect::from_bytes` as written. */
  lemma ConnectPrefixAsWritten(c: Connect, k: nat)
    requires Representable(Fields(c)) && StringsValid(c) && k < |Image(c)|
    ensures PartialWithin(ConnectFromBytes(FlagsOf(c), Image(c)[..k]), k, |Image(c)|)
  {
    ConnectRoundTrip(c, []);
    assert Image(c) + [] == Image(c);
    ConnectFromBytesStoresInput(FlagsOf(c), Image(c));
    ConnectFromBytesPrefix(FlagsOf(c), Image(c), k);
  }

  /** With no flag set the payload is the client identifier alone: the decoder
      consumes its two-byte length and its bytes and nothing more. */
  lemma ClientIdOnly(bytes: seq<byte>)
    requires Completes(ConnectFromBytes(Flags(false, false, false), bytes))
    ensures var (n, c) := ConnectFromBytes(Flags(false, false, false), bytes).value.item;
            c.will.None? && c.username.None? && c.password.None? &&
            n == 2 + |c.clientId| && bytes[..n] == LengthPrefixed(c.clientId)
  {
    var flags := Flags(false, false, false);
    ConnectFromBytesStoresInput(flags, bytes);
    ConnectFromBytesIntendedSound(flags, bytes);
    var c := ConnectFromBytesIntended(flags, bytes).value.item.1;
    assert Fields(c) == [c.clientId];
  }

  /** `[0, 3, 'a', 'b', 'c']` followed by anything is the client identifier
      "abc" and nothing else, five bytes consumed. */
  lemma ClientIdExample(rest: seq<byte>)
    ensures ConnectFromBytes(Flags(false, false, false), [0, 3, 97, 98, 99] + rest) ==
              Ok(Complete((5, Connect([97, 98, 99], None, None, None))))
  {
    var c := Connect([97, 98, 99], None, None, None);
    assert Fields(c) == [[97, 98, 99]];
    assert Utf8Valid(c.clientId);
    assert Image(c) == [0, 3, 97, 98, 99];
    ConnectRoundTrip(c, rest);
    ConnectFromBytesStoresInput(FlagsOf(c), Image(c) + rest);
  }

  /** Whenever a password is present the decoder as written returns, in its
      place, the whole input it was given, which is always longer than the
      password it has just read: no payload with a password survives the
      round trip.  `[0, 0, 0, 1, 7]` (empty client identifier, password `[7]`)
      comes back with the password `[0, 0, 0, 1, 7]`. */
  lemma PasswordIsWholeInput(c: Connect, rest: seq<byte>)
    requires Representable(Fields(c)) && StringsValid(c) && c.password.Some?
    ensures ConnectFromBytes(FlagsOf(c), Image(c) + rest) ==
              Ok(Complete((|Image(c)|, c.(password := Some(Image(c) + rest)))))
    ensures |Image(c) + rest| > |c.password.value|
    ensures ConnectFromBytes(FlagsOf(c), Image(c) + rest) != Ok(Complete((|Image(c)|, c)))
  {
    ConnectRoundTrip(c, rest);
    ConnectFromBytesStoresInput(FlagsOf(c), Image(c) + rest);
    ImageParts(c);
    var password := c.password.value;
    assert OptionalField(c.password) == [password];
    FramedPair(password, []);
  }

  // ---------------------------------------------------------------- encoding

  /** Where a correct encoder puts `fields` when the first one starts at `at`:
      each field right after the framing of the one before. */
  function Layout(fields: seq<seq<byte>>, at: nat): (ws: seq<Write>)
    ensures |ws| == |fields|
    decreases |fields|
  {
    if fields == [] then []
    else [Write(at, fields[0])] + Layout(fields[1..], at + 2 + |fields[0]|)
  }

  lemma RepresentableCons(fields: seq<seq<byte>>)
    requires fields != []
    ensures Representable(fields) <==> |fields[0]| <= 0xFFFF && Representable(fields[1..])
  {
    if |fields[0]| <= 0xFFFF && Representable(fields[1..]) {
      forall i | 0 <= i < |fields| ensures |fields[i]| <= 0xFFFF {
        if i > 0 {
          assert fields[i] == fields[1..][i - 1];
        }
      }
    }
  }

  /** Laying out `a + b` lays out `a`, then `b` right after the framing of `a`. */
  lemma {:induction false} LayoutAppend(a: seq<seq<byte>>, b: seq<seq<byte>>, at: nat)
    ensures Layout(a + b, at) == Layout(a, at) + Layout(b, at + FramedSize(a))
    decreases |a|
  {
    if a == [] {
      assert a + b == b;
    } else {
      assert (a + b)[1..] == a[1..] + b;
      LayoutAppend(a[1..], b, at + 2 + |a[0]|);
    }
  }

  /** The writes of a layout all fit exactly when every field has a
      representable length and the framing of them all fits the buffer. */
  lemma {:induction false} LayoutFits(fields: seq<seq<byte>>, at: nat, size: nat)
    requires at <= size
    ensures AllFit(Layout(fields, at), size) <==>
              Representable(fields) && at + FramedSize(fields) <= size
    decreases |fields|
  {
    if fields != [] {
      var ws := Layout(fields, at);
      var next := at + 2 + |fields[0]|;
      RepresentableCons(fields);
      assert ws[0] == Write(at, fields[0]);
      assert ws[1..] == Layout(fields[1..], next);
      if Fits(ws[0], size) {
        LayoutFits(fields[1..], next, size);
        if AllFit(ws[1..], size) {
          forall i | 0 <= i < |ws| ensures Fits(ws[i], size) {
            if i > 0 {
              assert ws[i] == ws[1..][i - 1];
            }
          }
        }
      }
    }
  }

  /** Performing a layout that fits puts the framed fields at `at` and keeps
      every byte around them. */
  lemma {:induction false} LayoutApplied(fields: seq<seq<byte>>, at: nat, s: seq<byte>)
    requires Representable(fields) && at + FramedSize(fields) <= |s|
    ensures AllFit(Layout(fields, at), |s|)
    ensures ApplyWrites(s, Layout(fields, at)) ==
              s[..at] + Framed(fields) + s[at + FramedSize(fields)..]
    decreases |fields|
  {
    LayoutFits(fields, at, |s|);
    if fields == [] {
      assert s == s[..at] + s[at..];
    } else {
      var ws := Layout(fields, at);
      var next := at + 2 + |fields[0]|;
      var end := at + FramedSize(fields);
      RepresentableCons(fields);
      var s1 := Overwrite(s, ws[0]);
      assert ws[1..] == Layout(fields[1..], next);
      LayoutApplied(fields[1..], next, s1);
      OverwriteAround(s, Write(at, fields[0]), end);
      Regroup(s[..at], LengthPrefixed(fields[0]), Framed(fields[1..]), s[end..]);
    }
  }

  /** One write leaves the bytes before it and the bytes after `end` as they were. */
  lemma OverwriteAround(s: seq<byte>, w: Write, end: nat)
    requires Fits(w, |s|) && w.at + 2 + |w.field| <= end <= |s|
    ensures Overwrite(s, w)[..w.at + 2 + |w.field|] == s[..w.at] + LengthPrefixed(w.field)
    ensures Overwrite(s, w)[end..] == s[end..]
  {
  }

  lemma Regroup(a: seq<byte>, b: seq<byte>, c: seq<byte>, d: seq<byte>)
    ensures (a + b) + c + d == a + (b + c) + d
  {
  }

  /** The writes of `Will::to_bytes` into the slice starting at `start`: the
      topic, then the message right after it. */
  function WillWrites(w: Will, start: nat): (ws: seq<Write>)
    ensures ws == Layout(WillFields(Some(w)), start)
  {
    assert WillFields(Some(w))[1..] == [w.message];
    [Write(start, w.topic), Write(start + 2 + |w.topic|, w.message)]
  }

  /** `Will::to_bytes` into the slice of `dst` that starts at `start`, as
      written: it performs the two writes in order, and on success reports
      only the size of the framed message, not of the topic and message. */
  method WillToBytes(w: Will, dst: array<byte>, start: nat) returns (r: Result<nat>)
    requires start <= dst.Length
    modifies dst
    ensures Performed(WillWrites(w, start), r, old(dst[..]), dst[..])
    ensures r.Ok? ==> r.value == 2 + |w.message| &&
                      start + FramedSize(WillFields(Some(w))) <= dst.Length
  {
    ghost var before := dst[..];
    ghost var topicWrite := [Write(start, w.topic)];
    ghost var messageWrite := [Write(start + 2 + |w.topic|, w.message)];
    assert topicWrite + messageWrite == WillWrites(w, start);
    var offset := 0;
    var wrote := EncodeString(w.topic, dst, start + offset);
    if wrote.Err? {
      Abandon(topicWrite, messageWrite, wrote, before, dst[..]);
      return wrote;
    }
    offset := wrote.value;
    ghost var now := dst[..];
    wrote := EncodeBytes(w.message, dst, start + offset);
    Continue(topicWrite, messageWrite, wrote, before, now, dst[..]);
    if wrote.Err? {
      return wrote;
    }
    offset := wrote.value;
    WillSize(w);
    return Ok(offset);
  }

  /** `Will::to_bytes` with the offsets accumulated: the same writes, and on
      success the size of the whole framed will. */
  method WillToBytesIntended(w: Will, dst: array<byte>, start: nat) returns (r: Result<nat>)
    requires start <= dst.Length
    modifies dst
    ensures Performed(WillWrites(w, start), r, old(dst[..]), dst[..])
    ensures r.Ok? ==> r.value == FramedSize(WillFields(Some(w))) &&
                      start + r.value <= dst.Length
  {
    ghost var before := dst[..];
    ghost var topicWrite := [Write(start, w.topic)];
    ghost var messageWrite := [Write(start + 2 + |w.topic|, w.message)];
    assert topicWrite + messageWrite == WillWrites(w, start);
    var offset := 0;
    var wrote := EncodeString(w.topic, dst, start + offset);
    if wrote.Err? {
      Abandon(topicWrite, messageWrite, wrote, before, dst[..]);
      return wrote;
    }
    offset := offset + wrote.value;
    ghost var now := dst[..];
    wrote := EncodeBytes(w.message, dst, start + offset);
    Continue(topicWrite, messageWrite, wrote, before, now, dst[..]);
    if wrote.Err? {
      return wrote;
    }
    offset := offset + wrote.value;
    WillSize(w);
    return Ok(offset);
  }

  lemma WillSize(w: Will)
    ensures FramedSize(WillFields(Some(w))) == 4 + |w.topic| + |w.message|
  {
    var fields: seq<seq<byte>> := WillFields(Some(w));
    var tail: seq<seq<byte>> := fields[1..];
    assert tail == [w.message];
    assert tail[1..] == [];
    assert FramedSize(tail) == 2 + |w.message| + FramedSize(tail[1..]);
  }

  /** The writes of an optional will or field at `at`: none when it is absent. */
  function OptionalWillWrites(will: Option<Will>, at: nat): (ws: seq<Write>)
    ensures ws == Layout(WillFields(will), at)
  {
    if will.Some? then WillWrites(will.value, at) else []
  }

  function OptionalWrite(field: Option<seq<byte>>, at: nat): (ws: seq<Write>)
    ensures ws == Layout(OptionalField(field), at)
  {
    assert field.Some? ==> OptionalField(field)[1..] == [];
    if field.Some? then [Write(at, field.value)] else []
  }

  /** The `if let Some(will) = self.will { will.to_bytes(&mut bytes[offset..])? }`
      part of `Connect::to_bytes`, as written: nothing when there is no will,
      and otherwise what `Will::to_bytes` writes and reports. */
  method OptionalWillToBytes(will: Option<Will>, dst: array<byte>, offset: nat) returns (r: Result<nat>)
    requires offset <= dst.Length
    modifies dst
    ensures Performed(OptionalWillWrites(will, offset), r, old(dst[..]), dst[..])
    ensures r.Ok? ==> offset + FramedSize(WillFields(will)) <= dst.Length &&
                      r.value == (if will.Some? then 2 + |will.value.message| else 0)
  {
    if will.Some? {
      r := WillToBytes(will.value, dst, offset);
    } else {
      r := Ok(0);
    }
  }

  /** The same part with `Will::to_bytes` reporting the size of the whole
      framed will. */
  method OptionalWillToBytesIntended(will: Option<Will>, dst: array<byte>, offset: nat)
    returns (r: Result<nat>)
    requires offset <= dst.Length
    modifies dst
    ensures Performed(OptionalWillWrites(will, offset), r, old(dst[..]), dst[..])
    ensures r.Ok? ==> r.value == FramedSize(WillFields(will)) && offset + r.value <= dst.Length
  {
    if will.Some? {
      r := WillToBytesIntended(will.value, dst, offset);
    } else {
      r := Ok(0);
    }
  }

  /** The `if let Some(field) = ... { encode_string(field, &mut bytes[offset..])? }`
      parts of `Connect::to_bytes`: nothing when the field is absent, and
      otherwise the framed field at `offset` and its size. */
  method OptionalStringToBytes(field: Option<seq<byte>>, dst: array<byte>, offset: nat)
    returns (r: Result<nat>)
    requires offset <= dst.Length
    modifies dst
    ensures Performed(OptionalWrite(field, offset), r, old(dst[..]), dst[..])
    ensures r.Ok? ==> r.value == FramedSize(OptionalField(field)) && offset + r.value <= dst.Length
  {
    if field.Some? {
      SingleLayout(field, offset);
      r := EncodeString(field.value, dst, offset);
    } else {
      r := Ok(0);
    }
  }

  /** The same with `encode_bytes`, for the password. */
  method OptionalBytesToBytes(field: Option<seq<byte>>, dst: array<byte>, offset: nat)
    returns (r: Result<nat>)
    requires offset <= dst.Length
    modifies dst
    ensures Performed(OptionalWrite(field, offset), r, old(dst[..]), dst[..])
    ensures r.Ok? ==> r.value == FramedSize(OptionalField(field)) && offset + r.value <= dst.Length
  {
    if field.Some? {
      SingleLayout(field, offset);
      r := EncodeBytes(field.value, dst, offset);
    } else {
      r := Ok(0);
    }
  }

  lemma SingleLayout(field: Option<seq<byte>>, at: nat)
    requires field.Some?
    ensures FramedSize(OptionalField(field)) == 2 + |field.value|
  {
    assert OptionalField(field)[1..] == [];
  }

  /** Performing the writes of `a + b + c + d` in four steps: after the
      first `k` of them have succeeded, an error in the next ends the whole. */
  function Steps(a: seq<Write>, b: seq<Write>, c: seq<Write>, d: seq<Write>, k: nat): seq<Write>
    requires 1 <= k <= 4
  {
    if k == 1 then a else if k == 2 then a + b else if k == 3 then a + b + c else a + b + c + d
  }

  lemma StopAt<T>(a: seq<Write>, b: seq<Write>, c: seq<Write>, d: seq<Write>, k: nat,
                  r: Result<T>, before: seq<byte>, after: seq<byte>)
    requires 1 <= k <= 4 && r.Err? && Performed(Steps(a, b, c, d, k), r, before, after)
    ensures Performed(a + b + c + d, r, before, after)
  {
    if k == 1 {
      Abandon(a, b, r, before, after);
    }
    if k <= 2 {
      Abandon(a + b, c, r, before, after);
    }
    if k <= 3 {
      Abandon(a + b + c, d, r, before, after);
    }
  }

  /** Where `Connect::to_bytes` as written puts the will, the user name and
      the password: at the count the previous call returned.  That count is
      relative to the slice the previous call was given: after the will it is
      the size of the framed message alone, after the user name the size of
      the framed user name. */
  function AfterClientId(c: Connect): nat {
    2 + |c.clientId|
  }

  function AfterWill(c: Connect): nat {
    if c.will.Some? then 2 + |c.will.value.message| else AfterClientId(c)
  }

  function AfterUsername(c: Connect): nat {
    if c.username.Some? then 2 + |c.username.value| else AfterWill(c)
  }

  /** The writes of `Connect::to_bytes` as written, in order. */
  function AsWrittenWrites(c: Connect): seq<Write> {
    [Write(0, c.clientId)] + OptionalWillWrites(c.will, AfterClientId(c)) +
    OptionalWrite(c.username, AfterWill(c)) + OptionalWrite(c.password, AfterUsername(c))
  }

  /** The count `Connect::to_bytes` as written reports: the count of the last
      call it made. */
  function AsWrittenCount(c: Connect): nat {
    if c.password.Some? then 2 + |c.password.value| else AfterUsername(c)
  }

  /** The writes of `Connect::to_bytes` as written, in its four steps. */
  function AsWrittenSteps(c: Connect, k: nat): seq<Write>
    requires 1 <= k <= 4
  {
    Steps([Write(0, c.clientId)], OptionalWillWrites(c.will, AfterClientId(c)),
          OptionalWrite(c.username, AfterWill(c)), OptionalWrite(c.password, AfterUsername(c)), k)
  }

  /** An error in the `k`-th step of `Connect::to_bytes` as written ends it. */
  lemma AsWrittenStop<T>(c: Connect, k: nat, r: Result<T>, before: seq<byte>, after: seq<byte>)
    requires 1 <= k <= 4 && r.Err? && Performed(AsWrittenSteps(c, k), r, before, after)
    ensures Performed(AsWrittenWrites(c), r, before, after)
  {
    StopAt([Write(0, c.clientId)], OptionalWillWrites(c.will, AfterClientId(c)),
           OptionalWrite(c.username, AfterWill(c)), OptionalWrite(c.password, AfterUsername(c)),
           k, r, before, after);
  }

  /** `Connect::to_bytes` as written: it performs `AsWrittenWrites(c)` in order
      on `dst`, stopping at the first that does not fit, and on success
      reports `AsWrittenCount(c)`. */
  method ConnectToBytes(c: Connect, dst: array<byte>) returns (r: Result<nat>)
    modifies dst
    ensures Performed(AsWrittenWrites(c), r, old(dst[..]), dst[..])
    ensures r.Ok? ==> r.value == AsWrittenCount(c)
  {
    ghost var before := dst[..];
    ghost var p0 := [Write(0, c.clientId)];
    ghost var p1 := OptionalWillWrites(c.will, AfterClientId(c));
    ghost var p2 := OptionalWrite(c.username, AfterWill(c));
    ghost var p3 := OptionalWrite(c.password, AfterUsername(c));
    var offset := 0;

    var wrote := EncodeString(c.clientId, dst, offset);
    if wrote.Err? {
      AsWrittenStop(c, 1, wrote, before, dst[..]);
      return wrote;
    }
    offset := wrote.value;
    ghost var now := dst[..];

    assert offset == AfterClientId(c);
    wrote := OptionalWillToBytes(c.will, dst, offset);
    Continue(p0, p1, wrote, before, now, dst[..]);
    if wrote.Err? {
      AsWrittenStop(c, 2, wrote, before, dst[..]);
      return wrote;
    }
    offset := if c.will.Some? then wrote.value else offset;
    now := dst[..];

    assert offset == AfterWill(c);
    wrote := OptionalStringToBytes(c.username, dst, offset);
    ghost var after := dst[..];
    assert Performed(p2, wrote, now, after);
    assert wrote.Ok? ==> Perform(before, p0 + p1) == Outcome(None, now);
    Continue(p0 + p1, p2, wrote, before, now, dst[..]);
    if wrote.Err? {
      AsWrittenStop(c, 3, wrote, before, dst[..]);
      return wrote;
    }
    offset := if c.username.Some? then wrote.value else offset;
    now := dst[..];

    assert offset == AfterUsername(c);
    wrote := OptionalBytesToBytes(c.password, dst, offset);
    after := dst[..];
    assert Performed(p3, wrote, now, after);
    assert wrote.Ok? ==> Perform(before, p0 + p1 + p2) == Outcome(None, now);
    Continue(p0 + p1 + p2, p3, wrote, before, now, dst[..]);
    if wrote.Err? {
      AsWrittenStop(c, 4, wrote, before, dst[..]);
      return wrote;
    }
    offset := if c.password.Some? then wrote.value else offset;

    r := Ok(offset);
  }

  /** The writes of a correct `Connect::to_bytes`: the fields laid out one
      after the other from the start of the buffer. */
  function IntendedWrites(c: Connect): seq<Write> {
    Layout(Fields(c), 0)
  }

  /** Where a correct `Connect::to_bytes` puts the will, the user name and the
      password: right after the framing of the fields before them. */
  function IntendedWillAt(c: Connect): nat {
    2 + |c.clientId|
  }

  function IntendedUsernameAt(c: Connect): nat {
    IntendedWillAt(c) + FramedSize(WillFields(c.will))
  }

  function IntendedPasswordAt(c: Connect): nat {
    IntendedUsernameAt(c) + FramedSize(OptionalField(c.username))
  }

  /** The correct layout split at the will, the user name and the password. */
  lemma IntendedParts(c: Connect)
    ensures FramedSize(Fields(c)) == IntendedPasswordAt(c) + FramedSize(OptionalField(c.password))
    ensures IntendedWrites(c) ==
              [Write(0, c.clientId)] + OptionalWillWrites(c.will, IntendedWillAt(c)) +
              OptionalWrite(c.username, IntendedUsernameAt(c)) +
              OptionalWrite(c.password, IntendedPasswordAt(c))
  {
    var f1: seq<seq<byte>> := [c.clientId];
    var f2, f3, f4 := WillFields(c.will), OptionalField(c.username), OptionalField(c.password);
    assert Fields(c) == f1 + f2 + f3 + f4;
    assert f1[1..] == [];
    LayoutAppend(f1 + f2 + f3, f4, 0);
    LayoutAppend(f1 + f2, f3, 0);
    LayoutAppend(f1, f2, 0);
    FramedSizeAppend(f1 + f2 + f3, f4);
    FramedSizeAppend(f1 + f2, f3);
    FramedSizeAppend(f1, f2);
  }

  /** The correct layout in the four steps of `Connect::to_bytes`. */
  function IntendedSteps(c: Connect, k: nat): seq<Write>
    requires 1 <= k <= 4
  {
    Steps([Write(0, c.clientId)], OptionalWillWrites(c.will, IntendedWillAt(c)),
          OptionalWrite(c.username, IntendedUsernameAt(c)),
          OptionalWrite(c.password, IntendedPasswordAt(c)), k)
  }

  /** What performing the correct layout means for the buffer: it succeeds
      exactly when the framed fields fit, and then the buffer starts with the
      payload's wire image and keeps every byte after it. */
  lemma IntendedOutcome<T>(c: Connect, r: Result<T>, before: seq<byte>, after: seq<byte>)
    requires Performed(IntendedWrites(c), r, before, after)
    ensures r.Ok? <==> Representable(Fields(c)) && FramedSize(Fields(c)) <= |before|
    ensures r.Ok? ==> after[..FramedSize(Fields(c))] == Image(c) &&
                      after[FramedSize(Fields(c))..] == before[FramedSize(Fields(c))..]
  {
    PerformSucceeds(before, IntendedWrites(c));
    LayoutFits(Fields(c), 0, |before|);
    if r.Ok? {
      LayoutApplied(Fields(c), 0, before);
    }
  }

  /** An error in the `k`-th step of the correct encoder ends the encoding:
      the payload did not fit. */
  lemma IntendedStop<T>(c: Connect, k: nat, r: Result<T>, before: seq<byte>, after: seq<byte>)
    requires 1 <= k <= 4 && r.Err? && Performed(IntendedSteps(c, k), r, before, after)
    ensures Performed(IntendedWrites(c), r, before, after)
    ensures !(Representable(Fields(c)) && FramedSize(Fields(c)) <= |before|)
  {
    IntendedParts(c);
    StopAt([Write(0, c.clientId)], OptionalWillWrites(c.will, IntendedWillAt(c)),
           OptionalWrite(c.username, IntendedUsernameAt(c)),
           OptionalWrite(c.password, IntendedPasswordAt(c)), k, r, before, after);
    IntendedOutcome(c, r, before, after);
  }

  /** The correct encoder that has performed all four steps has written the
      payload's image. */
  lemma IntendedDone<T>(c: Connect, r: Result<T>, before: seq<byte>, after: seq<byte>)
    requires r.Ok? && Perform(before, IntendedSteps(c, 4)) == Outcome(None, after)
    ensures Performed(IntendedWrites(c), r, before, after)
    ensures Representable(Fields(c)) && FramedSize(Fields(c)) <= |before|
    ensures IntendedPasswordAt(c) + FramedSize(OptionalField(c.password)) == FramedSize(Fields(c))
    ensures after[..FramedSize(Fields(c))] == Image(c) &&
            after[FramedSize(Fields(c))..] == before[FramedSize(Fields(c))..]
  {
    IntendedStepsAll(c);
    IntendedOutcome(c, r, before, after);
  }

  lemma IntendedStepsAll(c: Connect)
    ensures IntendedSteps(c, 4) == IntendedWrites(c)
    ensures IntendedPasswordAt(c) + FramedSize(OptionalField(c.password)) == FramedSize(Fields(c))
  {
    IntendedParts(c);
  }

  /** `Connect::to_bytes` with the offsets accumulated: it lays the fields
      out one after the other, fails exactly when they do not all fit, and on
      success has written the payload's wire image at the start of `dst`,
      keeps every byte after it, and reports its size. */
  method ConnectToBytesIntended(c: Connect, dst: array<byte>) returns (r: Result<nat>)
    modifies dst
    ensures Performed(IntendedWrites(c), r, old(dst[..]), dst[..])
    ensures r.Ok? <==> Representable(Fields(c)) && FramedSize(Fields(c)) <= dst.Length
    ensures r.Ok? ==> r.value == FramedSize(Fields(c)) && dst[..r.value] == Image(c) &&
                      dst[r.value..] == old(dst[r.value..])
  {
    ghost var before := dst[..];
    ghost var p0 := [Write(0, c.clientId)];
    ghost var p1 := OptionalWillWrites(c.will, IntendedWillAt(c));
    ghost var p2 := OptionalWrite(c.username, IntendedUsernameAt(c));
    ghost var p3 := OptionalWrite(c.password, IntendedPasswordAt(c));
    var offset := 0;

    var wrote := EncodeString(c.clientId, dst, offset);
    if wrote.Err? {
      IntendedStop(c, 1, wrote, before, dst[..]);
      return wrote;
    }
    offset := offset + wrote.value;
    ghost var now := dst[..];

    assert offset == IntendedWillAt(c);
    wrote := OptionalWillToBytesIntended(c.will, dst, offset);
    Continue(p0, p1, wrote, before, now, dst[..]);
    if wrote.Err? {
      IntendedStop(c, 2, wrote, before, dst[..]);
      return wrote;
    }
    offset := offset + wrote.value;
    now := dst[..];

    assert offset == IntendedUsernameAt(c);
    wrote := OptionalStringToBytes(c.username, dst, offset);
    ghost var after := dst[..];
    assert Performed(p2, wrote, now, after);
    assert wrote.Ok? ==> Perform(before, p0 + p1) == Outcome(None, now);
    Continue(p0 + p1, p2, wrote, before, now, dst[..]);
    if wrote.Err? {
      IntendedStop(c, 3, wrote, before, dst[..]);
      return wrote;
    }
    offset := offset + wrote.value;
    now := dst[..];

    assert offset == IntendedPasswordAt(c);
    wrote := OptionalBytesToBytes(c.password, dst, offset);
    after := dst[..];
    assert Performed(p3, wrote, now, after);
    assert wrote.Ok? ==> Perform(before, p0 + p1 + p2) == Outcome(None, now);
    Continue(p0 + p1 + p2, p3, wrote, before, now, dst[..]);
    if wrote.Err? {
      IntendedStop(c, 4, wrote, before, dst[..]);
      return wrote;
    }
    offset := offset + wrote.value;

    r := Ok(offset);
    IntendedDone(c, r, before, dst[..]);
  }

  /** How many of the will, the user name and the password are present. */
  function OptionalCount(c: Connect): nat {
    (if c.will.Some? then 1 else 0) + (if c.username.Some? then 1 else 0) +
    (if c.password.Some? then 1 else 0)
  }

  /** The framed sizes of the optional parts. */
  lemma OptionalSizes(c: Connect)
    ensures FramedSize(WillFields(c.will)) ==
              if c.will.Some? then 4 + |c.will.value.topic| + |c.will.value.message| else 0
    ensures FramedSize(OptionalField(c.username)) == if c.username.Some? then 2 + |c.username.value| else 0
    ensures FramedSize(OptionalField(c.password)) == if c.password.Some? then 2 + |c.password.value| else 0
  {
    if c.will.Some? { WillSize(c.will.value); }
    if c.username.Some? { SingleLayout(c.username, 0); }
    if c.password.Some? { SingleLayout(c.password, 0); }
  }

  /** `Connect::to_bytes` as written puts every field where the correct
      layout does exactly when at most one of the will, the user name and
      the password is present: with two of them, the second is written over
      the first. */
  lemma AsWrittenLayoutAgrees(c: Connect)
    ensures AsWrittenWrites(c) == IntendedWrites(c) <==> OptionalCount(c) <= 1
  {
    IntendedParts(c);
    OptionalSizes(c);
    var intended := IntendedWrites(c);
    var written := AsWrittenWrites(c);
    if c.will.Some? && c.username.Some? {
      assert written[3].at == 2 + |c.will.value.message| < intended[3].at;
    } else if c.will.Some? && c.password.Some? {
      assert written[3].at == 2 + |c.will.value.message| < intended[3].at;
    } else if c.username.Some? && c.password.Some? {
      assert written[2].at == 2 + |c.username.value| < intended[2].at;
    }
  }

  /** The count `Connect::to_bytes` as written reports is the payload's size
      exactly when only the client identifier is present; otherwise it is
      smaller. */
  lemma AsWrittenCountAgrees(c: Connect)
    ensures AsWrittenCount(c) == FramedSize(Fields(c)) <==> OptionalCount(c) == 0
    ensures AsWrittenCount(c) <= FramedSize(Fields(c))
  {
    IntendedParts(c);
    OptionalSizes(c);
  }

  /** With the client identifier alone, `Connect::to_bytes` as written is
      correct: it fails exactly when the framed identifier does not fit, and
      otherwise writes it at position 0, keeps every byte after it, and
      reports its size. */
  lemma AsWrittenClientIdOnly<T>(c: Connect, r: Result<T>, before: seq<byte>, after: seq<byte>)
    requires OptionalCount(c) == 0 && Performed(AsWrittenWrites(c), r, before, after)
    ensures r.Ok? <==> |c.clientId| <= 0xFFFF && 2 + |c.clientId| <= |before|
    ensures AsWrittenCount(c) == 2 + |c.clientId|
    ensures r.Ok? ==> after[..2 + |c.clientId|] == LengthPrefixed(c.clientId) &&
                      after[2 + |c.clientId|..] == before[2 + |c.clientId|..]
  {
    AsWrittenLayoutAgrees(c);
    AsWrittenCountAgrees(c);
    IntendedOutcome(c, r, before, after);
    var fields: seq<seq<byte>> := [c.clientId];
    assert Fields(c) == fields;
    RepresentableCons(fields);
    assert fields[1..] == [];
  }
}
