/**
 The choice of an alternate setting for isochronous streaming in `uvc_stream_start`, and the size of
 the transfers that follows from it.
 */
module AltSetting {
  import opened Bytes

  datatype Endpoint = Endpoint(address: nat, maxPacketSize: nat)

  /** wMaxPacketSize: bits 0-10 are the size, bits 11-12 the extra packets per microframe (section 9.6.6 of USB 2.0). */
  function Decoded(w: nat): (size: nat) {
    w % 0x800 * (w / 0x800 % 4 + 1)
  }

  /** The packet size of the first endpoint with the given address, or 0. */
  function PacketSize(eps: seq<Endpoint>, address: nat): (size: nat) {
    if eps == [] then 0
    else if eps[0].address == address then Decoded(eps[0].maxPacketSize)
    else PacketSize(eps[1..], address)
  }

  /** A size below 2048, up to three extra packets and the unused bits are taken apart again. */
  lemma DecodedBack(size: nat, extra: nat, unused: nat)
    requires size < 0x800 && extra < 4
    ensures Decoded(size + 0x800 * extra + 0x2000 * unused) == size * (extra + 1)
  {
    var w := size + 0x800 * extra + 0x2000 * unused;
    assert w == 0x800 * (extra + 4 * unused) + size;
    assert w / 0x800 == extra + 4 * unused && w % 0x800 == size;
    assert (extra + 4 * unused) % 4 == extra;
  }

  /** It is the first endpoint with the address that counts. */
  lemma {:induction false} PacketSizeFirst(eps: seq<Endpoint>, address: nat, i: nat)
    ensures i < |eps| && eps[i].address == address && (forall j :: 0 <= j < i ==> eps[j].address != address) ==>
      PacketSize(eps, address) == Decoded(eps[i].maxPacketSize)
    ensures (forall j :: 0 <= j < |eps| ==> eps[j].address != address) ==> PacketSize(eps, address) == 0
  {
    hide Decoded;
    if eps != [] {
      PacketSizeFirst(eps[1..], address, if i > 0 then i - 1 else 0);
    }
  }

  type Table = seq<seq<Endpoint>>

  datatype Choice = Choice(alt: nat, packetSize: nat, packets: nat, total: nat)

  /** Setting `i` is the first whose packets are large enough. */
  predicate FirstSufficient(table: Table, address: nat, required: nat, i: nat) {
    && i < |table| && PacketSize(table[i], address) >= required
    && forall j :: 0 <= j < i ==> PacketSize(table[j], address) < required
  }

  /** No setting suffices; setting `i` is the first of those with the largest packets, which are not empty. */
  predicate FirstLargest(table: Table, address: nat, required: nat, i: nat) {
    && i < |table| && 0 < PacketSize(table[i], address)
    && (forall j :: 0 <= j < |table| ==> PacketSize(table[j], address) < required)
    && (forall j :: 0 <= j < |table| ==> PacketSize(table[j], address) <= PacketSize(table[i], address))
    && forall j :: 0 <= j < i ==> PacketSize(table[j], address) < PacketSize(table[i], address)
  }

  /** As many packets as the largest frame needs, but at most 32. */
  predicate Transfer(c: Choice, maxFrame: nat) {
    && c.total == c.packets * c.packetSize && c.packets <= 32
    && (c.packets < 32 ==> maxFrame <= c.total)
    && (if maxFrame == 0 then c.packets == 0 else 1 <= c.packets && (c.packets - 1) * c.packetSize < maxFrame)
  }

  /** The loop over the endpoints of one setting. */
  method FindEndpoint(eps: seq<Endpoint>, address: nat) returns (size: nat)
    ensures size == PacketSize(eps, address)
  {
    size := 0;
    for i := 0 to |eps|
      invariant size == 0 && PacketSize(eps, address) == PacketSize(eps[i..], address)
    {
      if eps[i].address == address {
        var w := eps[i].maxPacketSize;
        return w % 0x800 * (w / 0x800 % 4 + 1);
      }
    }
  }

  lemma Ceiling(a: nat, b: nat)
    requires 0 < b
    ensures var q := (a + b - 1) / b; q * b >= a && (a > 0 ==> (q - 1) * b < a && q >= 1) && (a == 0 ==> q == 0)
  {
    var q := (a + b - 1) / b;
    assert a + b - 1 == q * b + (a + b - 1) % b;
    assert (q - 1) * b == q * b - b;
  }

  lemma Capped(q: nat, b: nat, a: nat)
    requires 32 <= q && (q - 1) * b < a
    ensures 31 * b < a
  {
    assert (q - 1) * b == 31 * b + (q - 32) * b;
  }

  method SizeTransfer(alt: nat, packetSize: nat, maxFrame: nat) returns (c: Choice)
    requires 0 < packetSize
    ensures c.alt == alt && c.packetSize == packetSize && Transfer(c, maxFrame)
  {
    Ceiling(maxFrame, packetSize);
    var packets := (maxFrame + packetSize - 1) / packetSize;
    if packets > 32 {
      Capped(packets, packetSize, maxFrame);
      packets := 32;
    }
    c := Choice(alt, packetSize, packets, packets * packetSize);
  }

  lemma TransferEmpty(c: Choice, maxFrame: nat)
    requires Transfer(c, maxFrame) && 0 < c.packetSize
    ensures c.packets == 0 || c.total == 0 <==> maxFrame == 0
  {
  }

  /**
   The search: the first sufficient setting is taken; if there is none, the first of the largest.
   It fails exactly when no setting has packets, or none suffices and there is no frame to transfer.
   */
  method ChooseAltSetting(table: Table, address: nat, required: nat, maxFrame: nat) returns (r: Option<Choice>)
    requires 0 < required
    ensures r.Some? ==>
      && var c := r.value;
      && (FirstSufficient(table, address, required, c.alt) || FirstLargest(table, address, required, c.alt))
      && c.packetSize == PacketSize(table[c.alt], address) && Transfer(c, maxFrame)
    ensures r.None? <==>
      && (forall j :: 0 <= j < |table| ==> PacketSize(table[j], address) < required)
      && ((forall j :: 0 <= j < |table| ==> PacketSize(table[j], address) == 0) || maxFrame == 0)
  {
    hide Transfer, PacketSize;
    var altMax, maxSize := -1, 0;
    for i := 0 to |table|
      invariant forall j :: 0 <= j < i ==> PacketSize(table[j], address) < required
      invariant forall j :: 0 <= j < i ==> PacketSize(table[j], address) <= maxSize
      invariant -1 <= altMax < i && (altMax < 0 <==> maxSize == 0)
      invariant altMax >= 0 ==> maxSize == PacketSize(table[altMax], address)
      invariant forall j :: 0 <= j < altMax ==> PacketSize(table[j], address) < maxSize
    {
      var size := FindEndpoint(table[i], address);
      if size >= required {
        var c := SizeTransfer(i, size, maxFrame);
        return Some(c);
      } else if size > maxSize {
        altMax, maxSize := i, size;
      }
    }
    r := None;
    if altMax >= 0 {
      var size := FindEndpoint(table[altMax], address);
      if size == maxSize {
        var c := SizeTransfer(altMax, size, maxFrame);
        TransferEmpty(c, maxFrame);
        if c.packets != 0 && c.total != 0 {
          r := Some(c);
        }
      }
    }
  }
}
