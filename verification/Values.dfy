/** The stored-value envelope (wire/values.rs) and its reading against a clock (db.rs). */
module Values {
  import opened ByteStrings
  import opened Words

  const TAG_RAW: Byte := 0
  const TAG_TTL: Byte := 1
  const TTL_HEADER_LEN := 9

  datatype Value = Raw(payload: Bytes) | Ttl(expiresAt: U64, payload: Bytes)

  function EncodeRaw(payload: Bytes): Bytes {
    [TAG_RAW] + payload
  }

  function EncodeTtl(payload: Bytes, expiresAt: Option<U64>): Bytes {
    match expiresAt
    case None => EncodeRaw(payload)
    case Some(ts) => [TAG_TTL] + ToBe(ts) + payload
  }

  /** The buffer as the source fills it: tag, then timestamp, then payload. */
  method BuildTtl(payload: Bytes, expiresAt: Option<U64>) returns (buf: Bytes)
    ensures buf == EncodeTtl(payload, expiresAt)
  {
    match expiresAt
    case None =>
      buf := [TAG_RAW];
      buf := buf + payload;
    case Some(ts) =>
      buf := [TAG_TTL];
      buf := buf + ToBe(ts);
      buf := buf + payload;
  }

  function Decode(b: Bytes): Option<Value> {
    if b == [] then None
    else if b[0] == TAG_RAW then Some(Raw(b[1..]))
    else if b[0] == TAG_TTL then
      if |b| < TTL_HEADER_LEN then None
      else Some(Ttl(FromBe(b[1..9]), b[TTL_HEADER_LEN..]))
    else None
  }

  function Encode(v: Value): Bytes {
    match v
    case Raw(payload) => EncodeRaw(payload)
    case Ttl(ts, payload) => EncodeTtl(payload, Some(ts))
  }

  /** The bytes on disk: a tag; with an expiry, its eight digits, most significant first; the payload. */
  lemma WireFormat(payload: Bytes, ts: U64, i: nat)
    requires i < 8
    ensures EncodeRaw(payload) == [0] + payload && EncodeTtl(payload, None) == [0] + payload
    ensures var b := EncodeTtl(payload, Some(ts));
            |b| == 9 + |payload| && b[0] == 1 && b[1 + i] == Digit(ts, 7 - i) && b[9..] == payload
  {
    ByteOrders(ts, 7 - i);
  }

  /** Decoding inverts encoding, for every payload and every timestamp. */
  lemma DecodeEncode(v: Value)
    ensures Decode(Encode(v)) == Some(v)
  {
    match v
    case Raw(payload) =>
    case Ttl(ts, payload) =>
      var b := Encode(v);
      BeIsomorphism(ts, ts);
      assert b[1..9] == ToBe(ts);
      assert b[9..] == payload;
  }

  /** Every byte string that decodes is the encoding of what it decodes to, and of nothing else. */
  lemma EncodeDecode(b: Bytes, v: Value)
    ensures Decode(b) == Some(v) <==> b == Encode(v)
  {
    DecodeEncode(v);
    if Decode(b) == Some(v) && v.Ttl? {
      BeOnto(b[1..9]);
      assert b == [b[0]] + b[1..9] + b[9..];
    }
  }

  /** Exactly the empty string, unknown tags and cut-short TTL headers fail to decode. */
  lemma DecodeFails(b: Bytes)
    ensures Decode(b).None? <==>
            !(exists v :: b == Encode(v))
    ensures Decode(b).None? <==>
            b == [] || b[0] > TAG_TTL || (b[0] == TAG_TTL && |b| < TTL_HEADER_LEN)
  {
    if Decode(b).Some? {
      EncodeDecode(b, Decode(b).value);
    }
    forall v | b == Encode(v) ensures Decode(b).Some? {
      DecodeEncode(v);
    }
  }

  // ---- reading against a clock ----

  datatype DecodedValue = Present(payload: Bytes) | Expired

  // `decode_live_value`; None is the "corrupt value" error.
  function DecodeLive(raw: Bytes, now: nat): Option<DecodedValue> {
    match Decode(raw)
    case None => None
    case Some(Raw(payload)) => Some(Present(payload))
    case Some(Ttl(ts, payload)) => Some(if ts <= now then Expired else Present(payload))
  }

  // `decode_for_scan`: None drops the row, whether expired or corrupt.
  function DecodeForScan(raw: Bytes, now: nat): Option<Bytes> {
    match Decode(raw)
    case Some(Raw(payload)) => Some(payload)
    case Some(Ttl(ts, payload)) => if ts > now then Some(payload) else None
    case None => None
  }

  // Past its expiry: the one case in which a point read deletes the row.
  predicate IsExpired(raw: Bytes, now: nat) {
    DecodeLive(raw, now) == Some(Expired)
  }

  /** The two readers agree: a scan keeps exactly the rows a point read returns. */
  lemma ScanMatchesRead(raw: Bytes, now: nat, payload: Bytes)
    ensures DecodeForScan(raw, now) == Some(payload) <==> DecodeLive(raw, now) == Some(Present(payload))
    ensures DecodeForScan(raw, now).None? <==> IsExpired(raw, now) || Decode(raw).None?
  {
  }

  /** Time only ever takes values away. */
  lemma ExpiryIsPermanent(raw: Bytes, now: nat, later: nat)
    requires now <= later
    ensures IsExpired(raw, now) ==> IsExpired(raw, later)
    ensures DecodeForScan(raw, later).Some? ==> DecodeForScan(raw, now) == DecodeForScan(raw, later)
  {
  }
}
