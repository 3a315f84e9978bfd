/** Bytes, little-endian numbers, and records made of fixed-width little-endian fields. */
module LittleEndian {
  type Byte = b: nat | b < 256

  /** A byte string as a little-endian number. */
  function Word(bytes: seq<Byte>): nat {
    if bytes == [] then 0 else bytes[0] + 256 * Word(bytes[1..])
  }

  lemma {:induction false} WordInjective(a: seq<Byte>, b: seq<Byte>)
    requires |a| == |b| && Word(a) == Word(b)
    ensures a == b
    decreases |a|
  {
    if a != [] {
      WordInjective(a[1..], b[1..]);
      assert a == [a[0]] + a[1..] && b == [b[0]] + b[1..];
    }
  }

  /** The `width` low bytes of a number, lowest first. */
  function Bytes(value: nat, width: nat): (bytes: seq<Byte>)
    ensures |bytes| == width
    decreases width, value
  {
    if width == 0 then [] else [value % 256] + Bytes(value / 256, width - 1)
  }

  /** How many numbers `width` bytes can hold. */
  function Capacity(width: nat): nat {
    if width == 0 then 1 else 256 * Capacity(width - 1)
  }

  lemma {:induction false} BytesRoundTrip(value: nat, width: nat)
    requires value < Capacity(width)
    ensures Word(Bytes(value, width)) == value
    decreases width
  {
    if width > 0 {
      BytesRoundTrip(value / 256, width - 1);
    }
  }

  /** One unsigned field of a binary record. */
  datatype Field = Field(value: nat, width: nat)

  function Encode(fields: seq<Field>): seq<Byte> {
    if fields == [] then [] else Bytes(fields[0].value, fields[0].width) + Encode(fields[1..])
  }

  function Length(widths: seq<nat>): nat {
    if widths == [] then 0 else widths[0] + Length(widths[1..])
  }

  lemma {:induction false} LengthSplit(a: seq<nat>, b: seq<nat>)
    ensures Length(a + b) == Length(a) + Length(b)
    decreases |a|
  {
    if a == [] {
      assert a + b == b;
    } else {
      assert (a + b)[1..] == a[1..] + b;
      LengthSplit(a[1..], b);
    }
  }

  /** Read consecutive fields of the given widths; the caller has checked that they are there. */
  function Decode(bytes: seq<Byte>, widths: seq<nat>): (values: seq<nat>)
    requires Length(widths) <= |bytes|
    ensures |values| == |widths|
    decreases |widths|, |bytes|
  {
    if widths == [] then [] else
      [Word(bytes[..widths[0]])] + Decode(bytes[widths[0]..], widths[1..])
  }

  function Widths(fields: seq<Field>): seq<nat> {
    seq(|fields|, i requires 0 <= i < |fields| => fields[i].width)
  }

  function Values(fields: seq<Field>): seq<nat> {
    seq(|fields|, i requires 0 <= i < |fields| => fields[i].value)
  }

  /** Every value fits its field. */
  predicate Fits(fields: seq<Field>) {
    forall i :: 0 <= i < |fields| ==> fields[i].value < Capacity(fields[i].width)
  }

  lemma {:induction false} EncodedLength(fields: seq<Field>)
    ensures |Encode(fields)| == Length(Widths(fields))
  {
    if fields != [] {
      EncodedLength(fields[1..]);
      assert Widths(fields)[1..] == Widths(fields[1..]);
    }
  }

  /** A record written field by field reads back field by field, whatever follows it. */
  lemma {:induction false} RecordRoundTrip(fields: seq<Field>, rest: seq<Byte>)
    requires Fits(fields)
    ensures |Encode(fields)| == Length(Widths(fields))
    ensures Decode(Encode(fields) + rest, Widths(fields)) == Values(fields)
    decreases |fields|
  {
    EncodedLength(fields);
    if fields != [] {
      var head, tail := Bytes(fields[0].value, fields[0].width), Encode(fields[1..]);
      BytesRoundTrip(fields[0].value, fields[0].width);
      RecordRoundTrip(fields[1..], rest);
      var all := Encode(fields) + rest;
      assert all == head + (tail + rest);
      assert all[..|head|] == head && all[|head|..] == tail + rest;
      assert Widths(fields)[1..] == Widths(fields[1..]);
      assert Values(fields) == [fields[0].value] + Values(fields[1..]);
    }
  }
}
