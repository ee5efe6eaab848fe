/**
 The STUN client's attribute parser (`src/transport/nat.rs`) against a printer for the address attributes of
 sections 15, 15.1 and 15.2 of RFC 5389, and against the response the test server builds
 (`src/bin/nat-test-helper.rs`).
 */
module Stun {
  import opened Results
  import opened Addresses

  type Bytes = seq<bv8>
  type TxnId = s: Bytes | |s| == 12 witness seq(12, _ => 0)

  const MAGIC_COOKIE: Bytes := [0x21, 0x12, 0xA4, 0x42]
  const MAPPED_ADDRESS := 0x0001
  const XOR_MAPPED_ADDRESS := 0x0020

  datatype StunError = TooShort | BadCookie | BadTransaction | UnknownFamily | NoAddress

  type Parsed = Result<SocketAddr, StunError>

  function Min(a: nat, b: nat): nat {
    if a < b then a else b
  }

  /** `u16::from_be_bytes`, as a number and as a word. */
  function U16(hi: bv8, lo: bv8): nat {
    hi as int * 256 + lo as int
  }

  function Word(hi: bv8, lo: bv8): bv16 {
    ((hi as bv16) << 8) | (lo as bv16)
  }

  /** An attribute's length rounded up to the next multiple of four. */
  function Padded(len: nat): nat {
    (len + 3) / 4 * 4
  }

  // ----- the parser

  function XorBytes(a: Bytes, b: Bytes): Bytes
    requires |a| == |b|
  {
    seq(|a|, i requires 0 <= i < |a| => a[i] ^ b[i])
  }

  function ParseXorMapped(data: Bytes, txn: TxnId): Parsed {
    if |data| < 8 then Err(TooShort)
    else
      var port := Word(data[2], data[3]) ^ 0x2112;
      if data[1] == 0x01 then
        Ok(SocketAddr(V4(data[4] ^ 0x21, data[5] ^ 0x12, data[6] ^ 0xA4, data[7] ^ 0x42), port))
      else if data[1] == 0x02 then
        if |data| < 20 then Err(TooShort)
        else Ok(SocketAddr(V6(XorBytes(data[4..20], MAGIC_COOKIE + txn)), port))
      else Err(UnknownFamily)
  }

  function ParseMapped(data: Bytes): Parsed {
    if |data| < 8 then Err(TooShort)
    else if data[1] == 0x01 then
      Ok(SocketAddr(V4(data[4], data[5], data[6], data[7]), Word(data[2], data[3])))
    else Err(UnknownFamily)
  }

  /** The attribute at `offset`: its type, and its value cut off at the end of the input. */
  function KindAt(attrs: Bytes, offset: nat): nat
    requires offset + 4 <= |attrs|
  {
    U16(attrs[offset], attrs[offset + 1])
  }

  function LengthAt(attrs: Bytes, offset: nat): nat
    requires offset + 4 <= |attrs|
  {
    U16(attrs[offset + 2], attrs[offset + 3])
  }

  function ValueAt(attrs: Bytes, offset: nat): Bytes
    requires offset + 4 <= |attrs|
  {
    attrs[offset + 4..offset + 4 + Min(LengthAt(attrs, offset), |attrs| - offset - 4)]
  }

  /** The first attribute `read` accepts, from `offset` on; the others are stepped over with their padding. */
  function Walk<T>(attrs: Bytes, offset: nat, read: (nat, Bytes) -> Option<T>, missing: T): T
    decreases |attrs| - offset
  {
    if offset + 4 > |attrs| then missing
    else
      match read(KindAt(attrs, offset), ValueAt(attrs, offset))
      case Some(r) => r
      case None => Walk(attrs, offset + 4 + Padded(LengthAt(attrs, offset)), read, missing)
  }

  function ReadAddress(kind: nat, value: Bytes, txn: TxnId): Option<Parsed> {
    if kind == XOR_MAPPED_ADDRESS then Some(ParseXorMapped(value, txn))
    else if kind == MAPPED_ADDRESS then Some(ParseMapped(value))
    else None
  }

  function AddressReader(txn: TxnId): (nat, Bytes) -> Option<Parsed> {
    (kind: nat, value: Bytes) => ReadAddress(kind, value, txn)
  }

  function ParseFrom(attrs: Bytes, txn: TxnId, offset: nat): Parsed {
    Walk(attrs, offset, AddressReader(txn), Err(NoAddress))
  }

  /** The checks of `discover_external_addr` on a received response, then the attributes. */
  function ParseResponse(response: Bytes, txn: TxnId): Parsed {
    if |response| < 20 then Err(TooShort)
    else if response[4..8] != MAGIC_COOKIE then Err(BadCookie)
    else if response[8..20] != txn then Err(BadTransaction)
    else
      var msgLen := U16(response[2], response[3]);
      ParseFrom(response[20..20 + Min(msgLen, |response| - 20)], txn, 0)
  }

  // ----- the parser as it runs

  lemma ParsesHere(attrs: Bytes, txn: TxnId, offset: nat)
    requires offset + 4 <= |attrs|
    ensures ParseFrom(attrs, txn, offset) ==
              match ReadAddress(KindAt(attrs, offset), ValueAt(attrs, offset), txn)
              case Some(r) => r
              case None => ParseFrom(attrs, txn, offset + 4 + Padded(LengthAt(attrs, offset)))
  {
    assert AddressReader(txn)(KindAt(attrs, offset), ValueAt(attrs, offset))
        == ReadAddress(KindAt(attrs, offset), ValueAt(attrs, offset), txn);
  }

  /** On arbitrary bytes: it terminates and never indexes out of range. */
  method ParseMappedAddress(attrs: Bytes, txn: TxnId) returns (r: Parsed)
    ensures r == ParseFrom(attrs, txn, 0)
  {
    var offset := 0;
    ghost var result := ParseFrom(attrs, txn, 0);
    while offset + 4 <= |attrs|
      invariant 0 <= offset
      invariant ParseFrom(attrs, txn, offset) == result
      decreases |attrs| - offset
    {
      var attrType := U16(attrs[offset], attrs[offset + 1]);
      var attrLen := U16(attrs[offset + 2], attrs[offset + 3]);
      var attrData := attrs[offset + 4..offset + 4 + Min(attrLen, |attrs| - offset - 4)];
      ParsesHere(attrs, txn, offset);
      if attrType == 0x0020 {
        r := DecodeXorMapped(attrData, txn);
        return;
      } else if attrType == 0x0001 {
        return ParseMapped(attrData);
      }
      offset := offset + 4 + Padded(attrLen);
    }
    return Err(NoAddress);
  }

  method DecodeXorMapped(data: Bytes, txn: TxnId) returns (r: Parsed)
    ensures r == ParseXorMapped(data, txn)
  {
    if |data| < 8 {
      return Err(TooShort);
    }
    var port := Word(data[2], data[3]) ^ 0x2112;
    if data[1] == 0x01 {
      return Ok(SocketAddr(V4(data[4] ^ 0x21, data[5] ^ 0x12, data[6] ^ 0xA4, data[7] ^ 0x42), port));
    } else if data[1] == 0x02 {
      if |data| < 20 {
        return Err(TooShort);
      }
      var ipBytes := new bv8[16](_ => 0);
      var xorKey := MAGIC_COOKIE + txn;
      for i := 0 to 16
        invariant forall j :: 0 <= j < i ==> ipBytes[j] == data[4 + j] ^ xorKey[j]
      {
        ipBytes[i] := data[4 + i] ^ xorKey[i];
      }
      assert ipBytes[..] == XorBytes(data[4..20], xorKey);
      return Ok(SocketAddr(V6(ipBytes[..]), port));
    } else {
      return Err(UnknownFamily);
    }
  }

  // ----- the printer

  /** Type and length as their two bytes, the value, and the padding that follows it. */
  datatype Attribute =
    Attribute(kindHi: bv8, kindLo: bv8, lenHi: bv8, lenLo: bv8, value: Bytes, padding: Bytes)
  {
    function Kind(): nat {
      U16(kindHi, kindLo)
    }
  }

  /** Section 15: the length field is that of the value, which is padded to a multiple of four. */
  ghost predicate WellFormed(a: Attribute) {
    U16(a.lenHi, a.lenLo) == |a.value| && |a.value| + |a.padding| == Padded(|a.value|)
  }

  /** The padded length is the one multiple of four that is less than four bytes above the length. */
  lemma PaddedIsNextMultiple(len: nat, n: nat)
    ensures n == Padded(len) <==> len <= n < len + 4 && n % 4 == 0
  {
  }

  function Print(a: Attribute): Bytes {
    [a.kindHi, a.kindLo, a.lenHi, a.lenLo] + a.value + a.padding
  }

  function PrintAll(attrs: seq<Attribute>): Bytes {
    if attrs == [] then [] else Print(attrs[0]) + PrintAll(attrs[1..])
  }

  function WordBytes(w: bv16): Bytes {
    [(w >> 8) as bv8, (w & 0xff) as bv8]
  }

  /** Section 15.1: family, port and address. */
  function MappedValue(addr: SocketAddr): (r: Bytes)
    ensures |r| == if addr.ip.V4? then 8 else 20
  {
    match addr.ip
    case V4(a, b, c, d) => [0, 0x01] + WordBytes(addr.port) + [a, b, c, d]
    case V6(octets) => [0, 0x02] + WordBytes(addr.port) + octets
  }

  /** Section 15.2: the same, port and address each XORed with the cookie (and the transaction id). */
  function XorMappedValue(addr: SocketAddr, txn: TxnId): (r: Bytes)
    ensures |r| == if addr.ip.V4? then 8 else 20
  {
    XorValue(MappedValue(addr), MAGIC_COOKIE + txn)
  }

  function XorValue(plain: Bytes, key: Bytes): (r: Bytes)
    requires 4 <= |plain| <= 20 && |key| == 16
  {
    plain[..2] + XorBytes(plain[2..4], key[..2]) + XorBytes(plain[4..], key[..|plain| - 4])
  }

  function AddressLength(addr: SocketAddr): bv8 {
    if addr.ip.V4? then 8 else 20
  }

  function XorMapped(addr: SocketAddr, txn: TxnId): Attribute {
    Attribute(0x00, 0x20, 0x00, AddressLength(addr), XorMappedValue(addr, txn), [])
  }

  function Mapped(addr: SocketAddr): Attribute {
    Attribute(0x00, 0x01, 0x00, AddressLength(addr), MappedValue(addr), [])
  }

  // ----- parsing undoes printing

  lemma WordRoundTrip(w: bv16)
    ensures Word(WordBytes(w)[0], WordBytes(w)[1]) == w
  {
  }

  /** The first byte is the high one. */
  lemma WordIsBigEndian(hi: bv8, lo: bv8)
    ensures Word(hi, lo) >> 8 == hi as bv16 && Word(hi, lo) & 0xff == lo as bv16
  {
  }

  lemma WordXorCancels(hi: bv8, lo: bv8)
    ensures Word(hi ^ 0x21, lo ^ 0x12) ^ 0x2112 == Word(hi, lo)
  {
  }

  lemma XorBytesCancels(a: Bytes, k: Bytes)
    requires |a| == |k|
    ensures XorBytes(XorBytes(a, k), k) == a
  {
    forall i | 0 <= i < |a| ensures (a[i] ^ k[i]) ^ k[i] == a[i] { ByteXorCancels(a[i], k[i]); }
  }

  lemma ByteXorCancels(x: bv8, k: bv8)
    ensures (x ^ k) ^ k == x
  {
  }

  lemma XorValueAt(plain: Bytes, key: Bytes, i: nat)
    requires 4 <= |plain| <= 20 && |key| == 16 && i < |plain|
    ensures |XorValue(plain, key)| == |plain|
    ensures XorValue(plain, key)[i] ==
              if i < 2 then plain[i] else if i < 4 then plain[i] ^ key[i - 2] else plain[i] ^ key[i - 4]
  {
  }

  lemma XorValueParses(plain: Bytes, txn: TxnId)
    requires (|plain| == 8 && plain[1] == 0x01) || (|plain| == 20 && plain[1] == 0x02)
    ensures ParseXorMapped(XorValue(plain, MAGIC_COOKIE + txn), txn) ==
              Ok(SocketAddr(if |plain| == 8 then V4(plain[4], plain[5], plain[6], plain[7]) else V6(plain[4..]),
                            Word(plain[2], plain[3])))
  {
    var key := MAGIC_COOKIE + txn;
    var v := XorValue(plain, key);
    forall i | 0 <= i < |plain|
      ensures |v| == |plain|
      ensures v[i] == if i < 2 then plain[i] else if i < 4 then plain[i] ^ key[i - 2] else plain[i] ^ key[i - 4]
    {
      XorValueAt(plain, key, i);
    }
    WordXorCancels(plain[2], plain[3]);
    if |plain| == 8 {
      ByteXorCancels(plain[4], 0x21);
      ByteXorCancels(plain[5], 0x12);
      ByteXorCancels(plain[6], 0xA4);
      ByteXorCancels(plain[7], 0x42);
    } else {
      assert v[4..20] == XorBytes(plain[4..], key);
      XorBytesCancels(plain[4..], key);
    }
  }

  lemma XorMappedRoundTrip(addr: SocketAddr, txn: TxnId)
    ensures ParseXorMapped(XorMappedValue(addr, txn), txn) == Ok(addr)
  {
    WordRoundTrip(addr.port);
    XorValueParses(MappedValue(addr), txn);
  }

  /** Section 15.1 allows IPv6 as well; the parser gives the address back exactly for IPv4. */
  lemma MappedRoundTripIff(addr: SocketAddr)
    ensures ParseMapped(MappedValue(addr)) == Ok(addr) <==> addr.ip.V4?
    ensures addr.ip.V6? ==> ParseMapped(MappedValue(addr)) == Err(UnknownFamily)
  {
    WordRoundTrip(addr.port);
  }

  lemma PrefixSplits(x: Bytes, y: Bytes, s: Bytes)
    requires x + y <= s
    ensures x <= s && y <= s[|x|..]
  {
    assert forall i :: 0 <= i < |y| ==> s[|x|..][i] == (x + y)[|x| + i];
  }

  lemma MiddleOf(x: Bytes, y: Bytes, z: Bytes)
    ensures (x + y + z)[|x|..|x| + |y|] == y
  {
  }

  lemma SliceOf(s: Bytes, offset: nat, p: Bytes, i: nat, j: nat)
    requires offset <= |s| && p <= s[offset..] && i <= j <= |p|
    ensures s[offset + i..offset + j] == p[i..j]
    ensures forall n :: 0 <= n < |p| ==> s[offset + n] == p[n]
  {
    assert forall n :: 0 <= n < |p| ==> s[offset..][n] == p[n];
  }

  /** What the parser sees where a printed attribute begins. */
  lemma ReadsPrinted(attrs: Bytes, offset: nat, a: Attribute)
    requires WellFormed(a) && offset <= |attrs| && Print(a) <= attrs[offset..]
    ensures |Print(a)| == 4 + Padded(|a.value|) && offset + |Print(a)| <= |attrs|
    ensures KindAt(attrs, offset) == a.Kind()
    ensures LengthAt(attrs, offset) == |a.value|
    ensures ValueAt(attrs, offset) == a.value
  {
    ReadsHeader(attrs, offset, a);
    SliceOf(attrs, offset, Print(a), 4, 4 + |a.value|);
    MiddleOf([a.kindHi, a.kindLo, a.lenHi, a.lenLo], a.value, a.padding);
  }

  lemma ReadsHeader(attrs: Bytes, offset: nat, a: Attribute)
    requires offset <= |attrs| && Print(a) <= attrs[offset..]
    ensures offset + |Print(a)| <= |attrs| && |Print(a)| == 4 + |a.value| + |a.padding|
    ensures KindAt(attrs, offset) == a.Kind() && LengthAt(attrs, offset) == U16(a.lenHi, a.lenLo)
  {
    var p := Print(a);
    SliceOf(attrs, offset, p, 0, 4);
    assert attrs[offset + 0] == p[0] == a.kindHi && attrs[offset + 1] == p[1] == a.kindLo;
    assert attrs[offset + 2] == p[2] == a.lenHi && attrs[offset + 3] == p[3] == a.lenLo;
  }

  /** A walk that stands before a printed attribute reads it or steps over it. */
  lemma WalkReads<T>(attrs: Bytes, offset: nat, a: Attribute, read: (nat, Bytes) -> Option<T>, missing: T)
    requires WellFormed(a) && offset <= |attrs| && Print(a) <= attrs[offset..]
    ensures var next := offset + |Print(a)|;
            && next <= |attrs|
            && Walk(attrs, offset, read, missing) ==
                 match read(a.Kind(), a.value) case Some(r) => r case None => Walk(attrs, next, read, missing)
  {
    ReadsPrinted(attrs, offset, a);
  }

  /** Attributes of no interest are stepped over, padding included. */
  lemma {:induction false} WalkPast<T>(attrs: Bytes, offset: nat, others: seq<Attribute>,
                                       read: (nat, Bytes) -> Option<T>, missing: T)
    requires forall i :: 0 <= i < |others| ==> WellFormed(others[i]) && read(others[i].Kind(), others[i].value) == None
    requires offset <= |attrs| && PrintAll(others) <= attrs[offset..]
    ensures Walk(attrs, offset, read, missing) == Walk(attrs, offset + |PrintAll(others)|, read, missing)
    decreases |others|
  {
    if others != [] {
      WalkPastOne(attrs, offset, others, read, missing);
      var rest := others[1..];
      assert forall i :: 0 <= i < |rest| ==> rest[i] == others[i + 1];
      WalkPast(attrs, offset + |Print(others[0])|, rest, read, missing);
    }
  }

  lemma WalkPastOne<T>(attrs: Bytes, offset: nat, others: seq<Attribute>,
                       read: (nat, Bytes) -> Option<T>, missing: T)
    requires others != [] && WellFormed(others[0]) && read(others[0].Kind(), others[0].value) == None
    requires offset <= |attrs| && PrintAll(others) <= attrs[offset..]
    ensures var next := offset + |Print(others[0])|;
            && next <= |attrs| && PrintAll(others[1..]) <= attrs[next..]
            && offset + |PrintAll(others)| == next + |PrintAll(others[1..])|
            && Walk(attrs, offset, read, missing) == Walk(attrs, next, read, missing)
  {
    PrintAllSplits(attrs, offset, others);
    WalkReads(attrs, offset, others[0], read, missing);
  }

  lemma PrintAllSplits(attrs: Bytes, offset: nat, others: seq<Attribute>)
    requires others != [] && offset <= |attrs| && PrintAll(others) <= attrs[offset..]
    ensures var first, rest := Print(others[0]), PrintAll(others[1..]);
            && first <= attrs[offset..] && offset + |first| <= |attrs|
            && rest <= attrs[offset + |first|..]
            && |PrintAll(others)| == |first| + |rest|
  {
    var first, rest := Print(others[0]), PrintAll(others[1..]);
    PrefixSplits(first, rest, attrs[offset..]);
    assert attrs[offset + |first|..] == attrs[offset..][|first|..];
  }

  /** The first attribute of interest decides, whatever surrounds it. */
  lemma WalkFinds<T>(others: seq<Attribute>, a: Attribute, after: Bytes, read: (nat, Bytes) -> Option<T>, missing: T)
    requires forall i :: 0 <= i < |others| ==> WellFormed(others[i]) && read(others[i].Kind(), others[i].value) == None
    requires WellFormed(a) && read(a.Kind(), a.value).Some?
    ensures Some(Walk(PrintAll(others) + Print(a) + after, 0, read, missing)) == read(a.Kind(), a.value)
  {
    var front := PrintAll(others);
    var attrs := front + Print(a) + after;
    assert attrs[0..] == front + (Print(a) + after);
    assert attrs[|front|..] == Print(a) + after;
    WalkPast(attrs, 0, others, read, missing);
    WalkReads(attrs, |front|, a, read, missing);
  }

  ghost predicate IsOther(a: Attribute) {
    WellFormed(a) && a.Kind() != MAPPED_ADDRESS && a.Kind() != XOR_MAPPED_ADDRESS
  }

  /** The first address attribute decides. */
  lemma FirstAddressDecides(others: seq<Attribute>, a: Attribute, after: Bytes, txn: TxnId)
    requires forall i :: 0 <= i < |others| ==> IsOther(others[i])
    requires WellFormed(a) && !IsOther(a)
    ensures Some(ParseFrom(PrintAll(others) + Print(a) + after, txn, 0)) == ReadAddress(a.Kind(), a.value, txn)
  {
    forall i | 0 <= i < |others| ensures AddressReader(txn)(others[i].Kind(), others[i].value) == None {
      OtherIsUnread(others[i], txn);
    }
    WalkFinds(others, a, after, AddressReader(txn), Err(NoAddress));
  }

  lemma OtherIsUnread(a: Attribute, txn: TxnId)
    requires IsOther(a)
    ensures AddressReader(txn)(a.Kind(), a.value) == None
  {
  }

  /**
   After any well-formed padded attributes of other types, the parser returns exactly the printed address: any
   address from XOR-MAPPED-ADDRESS, any IPv4 address from MAPPED-ADDRESS.
   */
  lemma ParseUndoesPrint(others: seq<Attribute>, addr: SocketAddr, after: Bytes, txn: TxnId)
    requires forall i :: 0 <= i < |others| ==> IsOther(others[i])
    ensures WellFormed(XorMapped(addr, txn)) && WellFormed(Mapped(addr))
    ensures ParseFrom(PrintAll(others) + Print(XorMapped(addr, txn)) + after, txn, 0) == Ok(addr)
    ensures ParseFrom(PrintAll(others) + Print(Mapped(addr)) + after, txn, 0) == Ok(addr) <==> addr.ip.V4?
  {
    AddressAttributes(addr, txn);
    FirstAddressDecides(others, XorMapped(addr, txn), after, txn);
    FirstAddressDecides(others, Mapped(addr), after, txn);
    XorMappedRoundTrip(addr, txn);
    MappedRoundTripIff(addr);
  }

  lemma AddressAttributes(addr: SocketAddr, txn: TxnId)
    ensures WellFormed(XorMapped(addr, txn)) && XorMapped(addr, txn).Kind() == XOR_MAPPED_ADDRESS
    ensures WellFormed(Mapped(addr)) && Mapped(addr).Kind() == MAPPED_ADDRESS
  {
    assert Padded(8) == 8 && Padded(20) == 20;
    assert |XorMappedValue(addr, txn)| == |MappedValue(addr)| == if addr.ip.V4? then 8 else 20;
  }

  // ----- client and test server

  /** The success response the test server sends to an IPv4 client, 12 bytes of attributes; it answers no other. */
  function BuildResponse(txn: TxnId, from: SocketAddr): Option<Bytes> {
    if from.ip.V4? then
      var attr := [0x00, 0x20] + [0x00, 0x08] + XorMappedValue(from, txn);
      Some([0x01, 0x01] + [0x00, 0x0C] + MAGIC_COOKIE + txn + attr)
    else None
  }

  /** A response with another cookie or another transaction id is refused, whatever else it holds. */
  lemma ForeignResponseIsRefused(response: Bytes, txn: TxnId)
    ensures |response| < 20 ==> ParseResponse(response, txn) == Err(TooShort)
    ensures |response| >= 20 && (exists i :: 4 <= i < 8 && response[i] != MAGIC_COOKIE[i - 4]) ==>
              ParseResponse(response, txn) == Err(BadCookie)
    ensures |response| >= 20 && (forall i :: 4 <= i < 8 ==> response[i] == MAGIC_COOKIE[i - 4])
            && (exists i :: 8 <= i < 20 && response[i] != txn[i - 8]) ==>
              ParseResponse(response, txn) == Err(BadTransaction)
  {
    if |response| >= 20 {
      assert forall i :: 4 <= i < 8 ==> response[i] == response[4..8][i - 4];
      assert forall i :: 8 <= i < 20 ==> response[i] == response[8..20][i - 8];
    }
  }

  lemma ResponseParses(txn: TxnId, attr: Bytes, more: Bytes)
    requires |attr| == 12
    ensures ParseResponse([0x01, 0x01] + [0x00, 0x0C] + MAGIC_COOKIE + txn + attr + more, txn)
         == ParseFrom(attr, txn, 0)
  {
    var response := [0x01, 0x01] + [0x00, 0x0C] + MAGIC_COOKIE + txn + attr + more;
    assert response[4..8] == MAGIC_COOKIE && response[8..20] == txn;
    assert response[2] == 0x00 && response[3] == 0x0C;
    assert response[20..20 + 12] == attr;
  }

  /**
   The client reads its own address out of the server's response, whatever follows the announced length, and it
   refuses the response to another transaction.
   */
  lemma ClientReadsServer(txn: TxnId, from: SocketAddr, more: Bytes, other: TxnId)
    ensures from.ip.V4? <==> BuildResponse(txn, from).Some?
    ensures from.ip.V4? ==> ParseResponse(BuildResponse(txn, from).value + more, txn) == Ok(from)
    ensures from.ip.V4? && other != txn ==>
              ParseResponse(BuildResponse(txn, from).value + more, other) == Err(BadTransaction)
  {
    if from.ip.V4? {
      var attr := [0x00, 0x20] + [0x00, 0x08] + XorMappedValue(from, txn);
      ServerAttribute(txn, from);
      ResponseParses(txn, attr, more);
      ParseUndoesPrint([], from, [], txn);
      if other != txn { ServerNames(txn, attr + more, other); }
    }
  }

  lemma ServerNames(txn: TxnId, rest: Bytes, other: TxnId)
    requires other != txn
    ensures ParseResponse([0x01, 0x01] + [0x00, 0x0C] + MAGIC_COOKIE + txn + rest, other) == Err(BadTransaction)
  {
    var response := [0x01, 0x01] + [0x00, 0x0C] + MAGIC_COOKIE + txn + rest;
    assert response[4..8] == MAGIC_COOKIE && response[8..20] == txn;
  }

  lemma ServerAttribute(txn: TxnId, from: SocketAddr)
    requires from.ip.V4?
    ensures var attr := [0x00, 0x20] + [0x00, 0x08] + XorMappedValue(from, txn);
            |attr| == 12 && PrintAll([]) + Print(XorMapped(from, txn)) + [] == attr
  {
  }
}
