/** Canonical digest framing: fixed-width integer fields, raw bytes and length prefixes, and the
    decoders that show the framing loses nothing. */
module Framing {
  import opened Primitives
  import opened Arithmetic

  type Bytes = seq<Byte>

  function Pow256(w: nat): (p: nat)
    ensures p > 0
  {
    if w == 0 then 1 else 256 * Pow256(w - 1)
  }

  /** `to_be_bytes` at a width of `w` bytes; also the raw bytes of an address (20) or hash (32). */
  function BE(w: nat, x: nat): (r: Bytes)
    ensures |r| == w
  {
    if w == 0 then [] else BE(w - 1, x / 256) + [x % 256]
  }

  /** `to_le_bytes`. */
  function LE(w: nat, x: nat): (r: Bytes)
    ensures |r| == w
  {
    if w == 0 then [] else [x % 256] + LE(w - 1, x / 256)
  }

  function ValueBE(bs: Bytes): nat { if bs == [] then 0 else 256 * ValueBE(bs[..|bs| - 1]) + bs[|bs| - 1] }

  function ValueLE(bs: Bytes): nat { if bs == [] then 0 else bs[0] + 256 * ValueLE(bs[1..]) }

  lemma {:induction false} BigEndianRoundTrip(w: nat, x: nat)
    requires x < Pow256(w)
    ensures ValueBE(BE(w, x)) == x
  {
    if w > 0 {
      BigEndianRoundTrip(w - 1, x / 256);
      assert BE(w, x)[..w - 1] == BE(w - 1, x / 256);
    }
  }

  /** Every byte string is the encoding of its value. */
  lemma {:induction false} BigEndianOfValue(bs: Bytes)
    ensures ValueBE(bs) < Pow256(|bs|) && BE(|bs|, ValueBE(bs)) == bs
  {
    if bs != [] {
      BigEndianOfValue(bs[..|bs| - 1]);
      assert bs == bs[..|bs| - 1] + [bs[|bs| - 1]];
    }
  }

  lemma {:induction false} LittleEndianRoundTrip(w: nat, x: nat)
    requires x < Pow256(w)
    ensures ValueLE(LE(w, x)) == x
  {
    if w > 0 {
      LittleEndianRoundTrip(w - 1, x / 256);
      assert LE(w, x)[1..] == LE(w - 1, x / 256);
    }
  }

  /** The first byte of a big-endian field is the most significant one, */
  lemma {:induction false} BigEndianDigit(w: nat, x: nat, i: nat)
    requires i < w
    ensures BE(w, x)[i] == x / Pow256(w - 1 - i) % 256
  {
    if i < w - 1 {
      BigEndianDigit(w - 1, x / 256, i);
      QuotientTwice(x, 256, Pow256(w - 2 - i));
    }
  }

  /** and of a little-endian field the least significant one. */
  lemma {:induction false} LittleEndianDigit(w: nat, x: nat, i: nat)
    requires i < w
    ensures LE(w, x)[i] == x / Pow256(i) % 256
  {
    if i > 0 {
      LittleEndianDigit(w - 1, x / 256, i - 1);
      QuotientTwice(x, 256, Pow256(i - 1));
    }
  }

  /** Eight and sixteen bytes hold exactly the `u64` and `u128` values. */
  lemma MachineWidths()
    ensures Pow256(8) == U64_MAX + 1 && Pow256(16) == U128_MAX + 1
  {
    assert Pow256(4) == 0x1_0000_0000;
    assert Pow256(8) == 0x1_0000_0000_0000_0000;
    assert Pow256(12) == 0x1_0000_0000_0000_0000_0000_0000;
  }

  lemma Behind(head: Bytes, tail: Bytes, start: nat, size: nat)
    requires start + size <= |tail|
    ensures (head + tail)[|head| + start..|head| + start + size] == tail[start..start + size]
  {
  }

  // ---- records of fixed-width fields ---------------------------------------------------

  function Fields(ws: seq<nat>, vs: seq<nat>): Bytes
    requires |ws| == |vs|
  {
    if ws == [] then [] else BE(ws[0], vs[0]) + Fields(ws[1..], vs[1..])
  }

  ghost predicate AllFit(ws: seq<nat>, vs: seq<nat>) {
    |ws| == |vs| && forall i :: 0 <= i < |ws| ==> vs[i] < Pow256(ws[i])
  }

  /** Reads the fields back and returns what follows them. */
  function Split(ws: seq<nat>, bs: Bytes): Option<(seq<nat>, Bytes)> {
    if ws == [] then Some(([], bs))
    else if |bs| < ws[0] then None
    else
      match Split(ws[1..], bs[ws[0]..])
      case None => None
      case Some((vs, rest)) => Some(([ValueBE(bs[..ws[0]])] + vs, rest))
  }

  lemma {:induction false} FieldsRoundTrip(ws: seq<nat>, vs: seq<nat>, rest: Bytes)
    requires AllFit(ws, vs)
    ensures Split(ws, Fields(ws, vs) + rest) == Some((vs, rest))
  {
    if ws == [] {
      assert [] + rest == rest;
    } else {
      var head, tail := BE(ws[0], vs[0]), Fields(ws[1..], vs[1..]) + rest;
      BigEndianRoundTrip(ws[0], vs[0]);
      FieldsRoundTrip(ws[1..], vs[1..], rest);
      assert Fields(ws, vs) + rest == head + tail;
      SplitHead(ws, head, tail);
      assert vs == [vs[0]] + vs[1..];
    }
  }

  lemma SplitHead(ws: seq<nat>, head: Bytes, tail: Bytes)
    requires ws != [] && |head| == ws[0] && Split(ws[1..], tail).Some?
    ensures var (vs, rest) := Split(ws[1..], tail).value;
            Split(ws, head + tail) == Some(([ValueBE(head)] + vs, rest))
  {
    assert (head + tail)[..ws[0]] == head && (head + tail)[ws[0]..] == tail;
  }

  /** Feeding one more field to the hasher. */
  lemma {:induction false} FieldsStep(ws: seq<nat>, vs: seq<nat>, i: nat)
    requires |ws| == |vs| && i < |ws|
    ensures Fields(ws[..i + 1], vs[..i + 1]) == Fields(ws[..i], vs[..i]) + BE(ws[i], vs[i])
  {
    if i > 0 {
      FieldsStep(ws[1..], vs[1..], i - 1);
      assert ws[..i + 1][1..] == ws[1..][..i] && vs[..i + 1][1..] == vs[1..][..i];
      assert ws[..i][1..] == ws[1..][..i - 1] && vs[..i][1..] == vs[1..][..i - 1];
    } else {
      assert Fields(ws[..1], vs[..1]) == BE(ws[0], vs[0]) + Fields(ws[..1][1..], vs[..1][1..]);
    }
  }

  lemma FeedThree(ws: seq<nat>, vs: seq<nat>, i: nat, fed: Bytes)
    requires |ws| == |vs| && i + 3 <= |ws| && fed == Fields(ws[..i], vs[..i])
    ensures fed + BE(ws[i], vs[i]) + BE(ws[i + 1], vs[i + 1]) + BE(ws[i + 2], vs[i + 2])
        == Fields(ws[..i + 3], vs[..i + 3])
  {
    FieldsStep(ws, vs, i);
    FieldsStep(ws, vs, i + 1);
    FieldsStep(ws, vs, i + 2);
  }
}
