/**
  MAC address parsing and Wake-on-LAN magic packet construction
  (src/net.rs). A Rust panic is modelled as an outcome of its own.
 */
module Net {
  import opened Types
  import opened Hex
  import opened Text

  /** The six bytes of a hardware address (`[u8; 6]`). */
  type Octets = s: seq<u8> | |s| == 6 witness [0, 0, 0, 0, 0, 0]

  datatype MacAddress = MacAddress(octets: Octets)
  {
    /** `Index<usize>`: reading past the sixth byte panics, so callers must stay below 6. */
    function Index(index: nat): (b: u8)
      requires index < 6
      ensures octets == octets[..index] + [b] + octets[index + 1..]
    {
      octets[index]
    }
  }

  /** What `MacAddress::from_str` does: return a `Result`, or panic on an out-of-bounds write. */
  datatype ParseOutcome = Returned(result: Result<MacAddress, string>) | IndexPanic(index: nat)
  {
    predicate Accepted() { Returned? && result.Ok? }
  }

  const WrongOctetCount: string := "Invalid number of octets"

  predicate Accepts(segment: string)
  {
    FromStrRadix16(segment).Ok?
  }

  /** The index of the first segment the byte parser rejects, or `|segs|` when none is rejected. */
  function FirstRejected(segs: seq<string>): (k: nat)
    ensures k <= |segs|
    ensures forall j :: 0 <= j < k ==> Accepts(segs[j])
    ensures k < |segs| ==> !Accepts(segs[k])
  {
    if |segs| == 0 || !Accepts(segs[0]) then 0
    else 1 + FirstRejected(segs[1..])
  }

  /** The byte values of segments that all parse. */
  function ByteValues(segs: seq<string>): (bytes: seq<u8>)
    requires forall j :: 0 <= j < |segs| ==> Accepts(segs[j])
    ensures |bytes| == |segs|
    ensures forall j :: 0 <= j < |segs| ==> FromStrRadix16(segs[j]) == Ok(bytes[j])
  {
    seq(|segs|, j requires 0 <= j < |segs| && Accepts(segs[j]) => FromStrRadix16(segs[j]).value)
  }

  /**
    The outcome of parsing the colon-separated segments: the loop stops at
    the first rejected segment among the first seven; a seventh segment that
    parses is written to `bytes[6]`, which panics; otherwise exactly six
    segments make an address.
   */
  function ParseSegments(segs: seq<string>): (r: ParseOutcome)
    ensures r.IndexPanic? ==> r.index == 6 && |segs| > 6
    ensures r.Accepted() ==> |segs| == 6
    ensures r.Returned? && r.result.Err? ==> r.result.error == WrongOctetCount || FirstRejected(segs) < |segs|
  {
    var k := FirstRejected(segs);
    if k < |segs| && k <= 6 then Returned(Err(Message(FromStrRadix16(segs[k]).error)))
    else if |segs| > 6 then IndexPanic(6)
    else if |segs| == 6 then Returned(Ok(MacAddress(ByteValues(segs))))
    else Returned(Err(WrongOctetCount))
  }

  /** `MacAddress::from_str` as a function; an accepted text has exactly five colons. */
  function ParseMac(s: string): (r: ParseOutcome)
    ensures r.Accepted() ==> Occurrences(s, ':') == 5
  {
    SplitCount(s, ':');
    ParseSegments(Split(s, ':'))
  }

  /** `MacAddress::from_str`: the segment loop writing into a six-byte buffer. */
  method FromStr(s: string) returns (r: ParseOutcome)
    ensures r == ParseMac(s)
    ensures r.IndexPanic? ==> r.index == 6
  {
    var bytes := new u8[6](_ => 0);
    var n := 0;
    var segs := Split(s, ':');
    var i := 0;
    while i < |segs|
      invariant 0 <= i <= |segs| && i <= 6
      invariant n == i
      invariant forall j :: 0 <= j < i ==> FromStrRadix16(segs[j]) == Ok(bytes[j])
    {
      var v := segs[i];
      match FromStrRadix16(v) {
        case Err(e) =>
          assert FirstRejected(segs) == i;
          return Returned(Err(Message(e)));
        case Ok(b) =>
          if i >= bytes.Length {
            assert FirstRejected(segs) > 6;
            return IndexPanic(i);
          }
          bytes[i] := b;
      }
      n := n + 1;
      i := i + 1;
    }
    assert FirstRejected(segs) == |segs|;
    if n == 6 {
      assert bytes[..] == ByteValues(segs);
      r := Returned(Ok(MacAddress(bytes[..])));
    } else {
      r := Returned(Err(WrongOctetCount));
    }
  }

  /**
    Parsing succeeds exactly when there are six segments and each parses as a
    byte, and then byte `i` of the address is the value of segment `i`.
   */
  lemma ParseAcceptsExactly(segs: seq<string>)
    ensures ParseSegments(segs).Accepted() <==>
      |segs| == 6 && forall j :: 0 <= j < |segs| ==> Accepts(segs[j])
    ensures ParseSegments(segs).Accepted() ==>
      forall i :: 0 <= i < 6 ==> FromStrRadix16(segs[i]) == Ok(ParseSegments(segs).result.value.Index(i))
  {
  }

  /** Fewer than six segments that all parse give the octet-count error. */
  lemma ParseTooFewOctets(segs: seq<string>)
    requires |segs| < 6
    requires forall j :: 0 <= j < |segs| ==> Accepts(segs[j])
    ensures ParseSegments(segs) == Returned(Err(WrongOctetCount))
  {
  }

  /**
    A segment the byte parser rejects, with every earlier one accepted, ends
    parsing with that segment's error text; later segments do not matter.
   */
  lemma ParseStopsAtFirstRejected(segs: seq<string>, k: nat, later: seq<string>)
    requires k < |segs| && k <= 6
    requires forall j :: 0 <= j < k ==> Accepts(segs[j])
    requires !Accepts(segs[k])
    ensures ParseSegments(segs) == Returned(Err(Message(FromStrRadix16(segs[k]).error)))
    ensures ParseSegments(segs[..k + 1] + later) == ParseSegments(segs)
  {
    var cut := segs[..k + 1] + later;
    assert forall j :: 0 <= j <= k ==> cut[j] == segs[j];
  }

  /**
    More than six segments never give an address: a rejected segment among
    the first seven gives its error, otherwise the seventh write panics at
    index 6.
   */
  lemma ParseTooManyOctets(segs: seq<string>)
    requires |segs| > 6
    ensures !ParseSegments(segs).Accepted()
    ensures (forall j :: 0 <= j <= 6 ==> Accepts(segs[j])) <==> ParseSegments(segs) == IndexPanic(6)
  {
  }

  /** Six segments of two hex digits each, of either case, always parse. */
  lemma {:induction false} TwoDigitOctetsParse(segs: seq<string>)
    requires |segs| == 6
    requires forall j :: 0 <= j < 6 ==> |segs[j]| == 2 && IsHexDigit(segs[j][0]) && IsHexDigit(segs[j][1])
    ensures ParseMac(Join(segs, ':')).Accepted()
    ensures forall j :: 0 <= j < 6 ==>
      ParseMac(Join(segs, ':')).result.value.Index(j) as int == 16 * ToDigit(segs[j][0]).value + ToDigit(segs[j][1]).value
  {
    forall j | 0 <= j < 6
      ensures ':' !in segs[j]
      ensures FromStrRadix16(segs[j]) == Ok((16 * ToDigit(segs[j][0]).value + ToDigit(segs[j][1]).value) as u8)
    {
      TwoDigitsParse(segs[j]);
      assert !IsHexDigit(':');
    }
    SplitJoin(segs, ':');
  }

  /** Parsing is case-insensitive: lower-casing the text never changes the outcome. */
  lemma ParseMacIgnoresCase(s: string)
    ensures ParseMac(Lower(s)) == ParseMac(s)
  {
    var segs, lowered := Split(s, ':'), Split(Lower(s), ':');
    SplitLower(s, ':');
    forall j | 0 <= j < |segs|
      ensures FromStrRadix16(lowered[j]) == FromStrRadix16(segs[j])
    {
      FromStrRadix16IgnoresCase(segs[j]);
    }
    assert FirstRejected(lowered) == FirstRejected(segs);
    if FirstRejected(segs) == |segs| {
      assert ByteValues(lowered) == ByteValues(segs);
    }
  }

  /** The canonical text of an address: six lower-case two-digit octets joined by colons. */
  function FormatMac(mac: MacAddress): (t: string)
    ensures forall k :: 0 <= k < |t| ==> t[k] == ':' || IsLowerHexDigit(t[k])
  {
    var octets := seq(6, i requires 0 <= i < 6 => FormatOctet(mac.octets[i]));
    JoinAll(octets, ':', c => c == ':' || IsLowerHexDigit(c));
    Join(octets, ':')
  }

  /** Formatting an address and parsing it back gives the same six bytes. */
  lemma FormatParseRoundTrip(mac: MacAddress)
    ensures ParseMac(FormatMac(mac)) == Returned(Ok(mac))
  {
    var segs := seq(6, i requires 0 <= i < 6 => FormatOctet(mac.octets[i]));
    forall j | 0 <= j < 6
      ensures ':' !in segs[j]
      ensures FromStrRadix16(segs[j]) == Ok(mac.octets[j])
    {
      FormatOctetRoundTrip(mac.octets[j]);
    }
    SplitJoin(segs, ':');
    assert ByteValues(segs) == mac.octets;
  }

  // ---------------------------------------------------------------------
  // Magic packets

  const SyncLength: nat := 6
  const Repetitions: nat := 16
  const PacketLength: nat := 102

  /** The fixed-size packet buffer (`[u8; 102]`). */
  type PacketBuffer = s: seq<u8> | |s| == 102 witness seq(102, _ => 0)

  datatype MagicPacket = MagicPacket(buffer: PacketBuffer)
  {
    /** `MagicPacket::bytes`: the buffer the packet was built with. */
    function Bytes(): (b: PacketBuffer)
      ensures MagicPacket(b) == this
    {
      buffer
    }
  }

  /** `s` written out `n` times back to back. */
  function Repeat(s: seq<u8>, n: nat): (r: seq<u8>)
    ensures |r| == n * |s|
  {
    if n == 0 then [] else Repeat(s, n - 1) + s
  }

  const Sync: seq<u8> := [0xff, 0xff, 0xff, 0xff, 0xff, 0xff]

  /** The reference layout: six `0xff` bytes, then the address sixteen times. */
  function MagicBytes(mac: MacAddress): (b: seq<u8>)
    ensures |b| == PacketLength && b[..SyncLength] == Sync
  {
    Sync + Repeat(mac.octets, Repetitions)
  }

  /** Where byte `j` of repetition `i` lands. */
  function Slot(i: nat, j: nat): nat
  {
    SyncLength + 6 * i + j
  }

  lemma {:induction false} RepeatAt(s: Octets, n: nat, i: nat, j: nat)
    requires i < n && j < 6
    ensures 6 * i + j < |Repeat(s, n)| && Repeat(s, n)[6 * i + j] == s[j]
    decreases n
  {
    if i < n - 1 {
      RepeatAt(s, n - 1, i, j);
    }
  }

  /**
    The packet is 102 bytes: six `0xff`, then for every repetition `i < 16`
    and byte `j < 6` the address byte `j` at `6 + 6 i + j`.
   */
  lemma MagicBytesLayout(mac: MacAddress)
    ensures |MagicBytes(mac)| == PacketLength
    ensures forall k :: 0 <= k < SyncLength ==> MagicBytes(mac)[k] == 0xff
    ensures forall i, j :: 0 <= i < Repetitions && 0 <= j < 6 ==> MagicBytes(mac)[Slot(i, j)] == mac.Index(j)
  {
    forall i, j | 0 <= i < Repetitions && 0 <= j < 6
      ensures MagicBytes(mac)[Slot(i, j)] == mac.Index(j)
    {
      RepeatAt(mac.octets, Repetitions, i, j);
    }
  }

  /**
    The slots of the sixteen repetitions are in bounds after the sync bytes
    (the last is 101) and distinct.
   */
  lemma SlotsInBounds()
    ensures forall i, j :: 0 <= i < Repetitions && 0 <= j < 6 ==> SyncLength <= Slot(i, j) < PacketLength
    ensures Slot(Repetitions - 1, 5) == PacketLength - 1
    ensures forall i, j, i', j' ::
      (0 <= i < Repetitions && 0 <= j < 6 && 0 <= i' < Repetitions && 0 <= j' < 6 && Slot(i, j) == Slot(i', j'))
      ==> i == i' && j == j'
  {
  }

  /** Every byte after the sync bytes is the slot of exactly one repetition and address byte. */
  lemma SlotCovers(k: nat)
    requires SyncLength <= k < PacketLength
    ensures (k - 6) / 6 < Repetitions && (k - 6) % 6 < 6 && Slot((k - 6) / 6, (k - 6) % 6) == k
  {
  }

  /** The address can be read back from the packet, so different addresses give different packets. */
  lemma MagicBytesDetermineMac(a: MacAddress, b: MacAddress)
    ensures MagicBytes(a)[6..12] == a.octets
    ensures MagicBytes(a) == MagicBytes(b) ==> a == b
  {
    forall j | 0 <= j < 6
      ensures MagicBytes(a)[6 + j] == a.octets[j]
    {
      RepeatAt(a.octets, Repetitions, 0, j);
    }
    forall j | 0 <= j < 6
      ensures MagicBytes(b)[6 + j] == b.octets[j]
    {
      RepeatAt(b.octets, Repetitions, 0, j);
    }
  }

  /** `MagicPacket::for_mac_address`: fill a zeroed 102-byte buffer in place. */
  method ForMacAddress(mac: MacAddress) returns (packet: MagicPacket)
    ensures packet.Bytes() == MagicBytes(mac)
  {
    var buffer := new u8[102](_ => 0);

    for k := 0 to 6
      invariant forall t :: 0 <= t < k ==> buffer[t] == 0xff
    {
      buffer[k] := 0xff;
    }
    assert buffer[..6] == Sync;

    for i := 0 to 16
      invariant buffer[..6 + i * 6] == Sync + Repeat(mac.octets, i)
    {
      ghost var done := buffer[..6 + i * 6];
      for j := 0 to 6
        invariant buffer[..6 + i * 6 + j] == done + mac.octets[..j]
      {
        buffer[Slot(i, j)] := mac.Index(j);
        assert buffer[..6 + i * 6 + j + 1] == buffer[..6 + i * 6 + j] + [mac.octets[j]];
        assert mac.octets[..j + 1] == mac.octets[..j] + [mac.octets[j]];
      }
      assert mac.octets[..6] == mac.octets;
      assert 6 + (i + 1) * 6 == 6 + i * 6 + 6;
    }

    assert buffer[..] == buffer[..6 + 16 * 6];
    packet := MagicPacket(buffer[..]);
  }
}
