/**
 * The GCP access token the helper emits, and the two ways it is built: read
 * from the secret backend's JSON response, or normalised from a token handed
 * out by the Google auth SDK. Either way the expiry ends up as RFC 3339 text
 * with whole seconds and the `Z` suffix.
 *
 * The JSON decoder is modelled by the values it hands to a field's visitor
 * (`Wire`), and the response by a map from field names to those values.
 */
module Gcp {
  import opened Errors
  import opened Calendar
  import Decimal

  const I64_MIN: int := -0x8000_0000_0000_0000
  const I64_MAX: int := 0x7FFF_FFFF_FFFF_FFFF

  type i64 = x: int | I64_MIN <= x <= I64_MAX
  type u64 = x: int | 0 <= x <= Decimal.U64_MAX

  /** What the JSON decoder passes to a field's visitor. */
  datatype Wire =
    | I64(i: i64)        // a negative integer
    | U64(u: u64)        // a non-negative integer
    | Str(s: string)
    | Other              // floats, booleans, null, arrays and objects

  /** The token as the helper writes it out; `tokenTtl` is only ever read. */
  datatype GcpAccessToken = GcpAccessToken(expiry: string, token: string, tokenTtl: u64)

  /** The JSON names of the fields: the expiry is read and written under different names. */
  const ExpiryReadName := "expires_at_seconds"
  const ExpiryWriteName := "token_expiry"
  const TokenName := "token"
  const TtlName := "token_ttl"

  /** The timestamp visitor: every signed value, and the unsigned ones that fit in an `i64`. */
  function DecodeTimestamp(w: Wire): (r: Result<int>)
    ensures r.Ok? ==> I64_MIN <= r.value <= I64_MAX
  {
    match w
    case I64(i) => Ok(i as int)
    case U64(u) => if u <= I64_MAX then Ok(u as int) else Err(JsonError(I64OutOfRange(u)))
    case _ => Err(JsonError(InvalidType(ExpiryReadName)))
  }

  /** Exactly the `i64` values, and the `u64` values up to `i64::MAX`, decode, and to themselves. */
  lemma DecodeTimestampOk(w: Wire, t: int)
    ensures DecodeTimestamp(w) == Ok(t) <==>
      (w.I64? && w.i == t) || (w.U64? && w.u == t && t <= I64_MAX)
  {
  }

  /** An unsigned value beyond `i64::MAX` is refused with the out-of-range error naming it. */
  lemma DecodeTimestampOutOfRange(w: Wire)
    ensures w.U64? && w.u > I64_MAX ==> DecodeTimestamp(w) == Err(JsonError(I64OutOfRange(w.u)))
    ensures (DecodeTimestamp(w).Err? && DecodeTimestamp(w).error.JsonError?
             && DecodeTimestamp(w).error.jsonKind.I64OutOfRange?) ==> w.U64? && w.u > I64_MAX
  {
  }

  /** A timestamp that either fails to decode or decodes to an instant with a four-digit year. */
  predicate TimestampRenderable(w: Wire)
  {
    DecodeTimestamp(w).Ok? ==> Renderable(DecodeTimestamp(w).value)
  }

  /** `timestamp_to_iso`: decode the timestamp, then render it as RFC 3339 text. */
  function TimestampToIso(w: Wire): (r: Result<string>)
    requires TimestampRenderable(w)
    ensures r.Ok? <==> DecodeTimestamp(w).Ok?
    ensures r.Ok? ==> ParseRfc3339(r.value) == Some(DecodeTimestamp(w).value)
    ensures r.Err? ==> r.error == DecodeTimestamp(w).error
  {
    match DecodeTimestamp(w)
    case Ok(t) => Ok(Rfc3339(t))
    case Err(e) => Err(e)
  }

  /** The `u64` visitor of `token_ttl`: unsigned values, and signed ones that are not negative. */
  function DecodeTtl(w: Wire): (r: Result<int>)
    ensures r.Ok? <==> w.U64? || (w.I64? && w.i >= 0)
    ensures r.Ok? ==> r.value == (if w.U64? then w.u as int else w.i as int) && 0 <= r.value <= Decimal.U64_MAX
  {
    match w
    case U64(u) => Ok(u as int)
    case I64(i) => if i >= 0 then Ok(i as int) else Err(JsonError(InvalidValue(TtlName)))
    case _ => Err(JsonError(InvalidType(TtlName)))
  }

  function DecodeString(name: string, w: Wire): (r: Result<string>)
    ensures r.Ok? <==> w.Str?
    ensures r.Ok? ==> r.value == w.s
  {
    if w.Str? then Ok(w.s) else Err(JsonError(InvalidType(name)))
  }

  /** The response may not carry an expiry beyond the four-digit years. */
  predicate ResponseRenderable(obj: map<string, Wire>)
  {
    ExpiryReadName in obj ==> TimestampRenderable(obj[ExpiryReadName])
  }

  /** A field of the response that is present but does not decode. */
  predicate Malformed(obj: map<string, Wire>)
  {
    || (ExpiryReadName in obj && DecodeTimestamp(obj[ExpiryReadName]).Err?)
    || (TokenName in obj && !obj[TokenName].Str?)
    || (TtlName in obj && DecodeTtl(obj[TtlName]).Err?)
  }

  /**
   * Deserialising the backend's response: the expiry is read from
   * `expires_at_seconds` and rendered, the token and `token_ttl` are read
   * verbatim, other fields are ignored. A field that is present but malformed
   * fails as soon as it is read, so it is reported before any missing field;
   * missing fields are reported after the whole object, in declaration order.
   */
  function Deserialize(obj: map<string, Wire>): (r: Result<GcpAccessToken>)
    requires ResponseRenderable(obj)
    ensures r.Err? ==> r.error.JsonError?
    ensures r.Ok? ==> ExpiryReadName in obj && TtlName in obj
    ensures r.Ok? ==> TokenName in obj && obj[TokenName] == Str(r.value.token)
  {
    if ExpiryReadName in obj && TimestampToIso(obj[ExpiryReadName]).Err? then
      Err(TimestampToIso(obj[ExpiryReadName]).error)
    else if TokenName in obj && DecodeString(TokenName, obj[TokenName]).Err? then
      Err(DecodeString(TokenName, obj[TokenName]).error)
    else if TtlName in obj && DecodeTtl(obj[TtlName]).Err? then
      Err(DecodeTtl(obj[TtlName]).error)
    else if ExpiryReadName !in obj then Err(JsonError(MissingField(ExpiryReadName)))
    else if TokenName !in obj then Err(JsonError(MissingField(TokenName)))
    else if TtlName !in obj then Err(JsonError(MissingField(TtlName)))
    else
      Ok(GcpAccessToken(
        TimestampToIso(obj[ExpiryReadName]).value,
        DecodeString(TokenName, obj[TokenName]).value,
        DecodeTtl(obj[TtlName]).value))
  }

  /**
   * A malformed field wins over a missing one: the error is a missing-field
   * error exactly when no present field is malformed.
   */
  lemma DeserializeMalformedFirst(obj: map<string, Wire>)
    requires ResponseRenderable(obj)
    requires Deserialize(obj).Err?
    ensures Deserialize(obj).error.jsonKind.MissingField? <==> !Malformed(obj)
  {
  }

  /**
   * A response is accepted exactly when all three fields are present and well
   * typed; the expiry then names the instant read from `expires_at_seconds`,
   * and the token and ttl are the response's own.
   */
  lemma DeserializeOk(obj: map<string, Wire>)
    requires ResponseRenderable(obj)
    ensures Deserialize(obj).Ok? <==>
      && ExpiryReadName in obj && DecodeTimestamp(obj[ExpiryReadName]).Ok?
      && TokenName in obj && obj[TokenName].Str?
      && TtlName in obj && DecodeTtl(obj[TtlName]).Ok?
    ensures Deserialize(obj).Ok? ==>
      var g := Deserialize(obj).value;
      && ParseRfc3339(g.expiry) == Some(DecodeTimestamp(obj[ExpiryReadName]).value)
      && g.token == obj[TokenName].s
      && g.tokenTtl == DecodeTtl(obj[TtlName]).value
  {
  }

  /** A response holding only a numeric `token` fails on the token's type, not on the missing expiry. */
  lemma DeserializeMalformedExample(obj: map<string, Wire>)
    requires obj == map[TokenName := I64(5)]
    ensures Deserialize(obj) == Err(JsonError(InvalidType(TokenName)))
  {
    assert ExpiryReadName !in obj && TtlName !in obj;
  }

  /** Fields other than the three the token reads make no difference. */
  lemma DeserializeIgnoresOtherFields(obj: map<string, Wire>, name: string, w: Wire)
    requires ResponseRenderable(obj)
    requires name != ExpiryReadName && name != TokenName && name != TtlName
    ensures ResponseRenderable(obj[name := w])
    ensures Deserialize(obj[name := w]) == Deserialize(obj)
  {
    var obj' := obj[name := w];
    assert ExpiryReadName in obj' <==> ExpiryReadName in obj;
    assert ExpiryReadName in obj ==> obj'[ExpiryReadName] == obj[ExpiryReadName];
    assert TokenName in obj' <==> TokenName in obj;
    assert TokenName in obj ==> obj'[TokenName] == obj[TokenName];
    assert TtlName in obj' <==> TtlName in obj;
    assert TtlName in obj ==> obj'[TtlName] == obj[TtlName];
  }

  /** The expiry is read from `expires_at_seconds` only: a `token_expiry` field alone does not supply it. */
  lemma DeserializeNeedsReadName(obj: map<string, Wire>)
    requires ResponseRenderable(obj)
    requires ExpiryReadName !in obj
    ensures Deserialize(obj).Err?
    ensures !Malformed(obj) ==> Deserialize(obj) == Err(JsonError(MissingField(ExpiryReadName)))
  {
  }

  /**
   * Serialising the token: the expiry is written as `token_expiry`, then the
   * token; `token_ttl` is never written.
   */
  function Serialize(g: GcpAccessToken): (fields: seq<(string, string)>)
    ensures forall i :: 0 <= i < |fields| ==> fields[i].0 != TtlName && fields[i].0 != ExpiryReadName
    ensures (ExpiryWriteName, g.expiry) in fields && (TokenName, g.token) in fields
  {
    [(ExpiryWriteName, g.expiry), (TokenName, g.token)]
  }

  /** The written names differ from the read ones: what is written cannot be read back as a response. */
  lemma SerializeNames(g: GcpAccessToken)
    ensures |Serialize(g)| == 2
    ensures Serialize(g)[0] == (ExpiryWriteName, g.expiry) && Serialize(g)[1] == (TokenName, g.token)
    ensures forall i :: 0 <= i < |Serialize(g)| ==> Serialize(g)[i].0 != TtlName && Serialize(g)[i].0 != ExpiryReadName
  {
  }

  /** Re-reading the written fields as a response fails: the expiry is under the wrong name. */
  lemma SerializeNotReadable(g: GcpAccessToken)
    ensures var obj := map[ExpiryWriteName := Str(g.expiry), TokenName := Str(g.token)];
      ResponseRenderable(obj) && Deserialize(obj) == Err(JsonError(MissingField(ExpiryReadName)))
  {
    var obj := map[ExpiryWriteName := Str(g.expiry), TokenName := Str(g.token)];
    assert ExpiryReadName !in obj;
  }

  /* ---------- Normalising a token from the Google auth SDK ---------- */

  /** The SDK's token: its text and, possibly, the instant it expires. */
  datatype SdkToken = SdkToken(accessToken: string, expiresAt: Option<int>)

  /** Fifty minutes, used when the SDK gives no expiry. */
  const DefaultLifetime: int := 50 * 60

  /** The instant the token is taken to expire at, given the clock reading `now`. */
  function EffectiveExpiry(t: SdkToken, now: int): (e: int)
    ensures t.expiresAt.Some? ==> e == t.expiresAt.value
    ensures t.expiresAt.None? ==> e == now + 3000
  {
    match t.expiresAt
    case Some(e) => e
    case None => now + DefaultLifetime
  }

  /**
   * `from_gcp_auth` with the clock read once as `now`: the token text is
   * copied, the expiry is rendered, and the ttl is the distance between the
   * expiry and now in either direction.
   */
  function FromGcpAuth(t: SdkToken, now: int): (r: GcpAccessToken)
    requires Renderable(EffectiveExpiry(t, now))
    requires -I64_MAX <= EffectiveExpiry(t, now) - now <= I64_MAX
    ensures r.token == t.accessToken
    ensures ParseRfc3339(r.expiry) == Some(EffectiveExpiry(t, now))
    ensures r.tokenTtl >= 0 && (r.tokenTtl == EffectiveExpiry(t, now) - now || r.tokenTtl == now - EffectiveExpiry(t, now))
  {
    var expiry := EffectiveExpiry(t, now);
    var delta := expiry - now;
    GcpAccessToken(Rfc3339(expiry), t.accessToken, if delta < 0 then -delta else delta)
  }

  /** Without an expiry from the SDK, the token lives fifty minutes: ttl 3000. */
  lemma FromGcpAuthDefault(token: string, now: int)
    requires Renderable(now + 3000)
    ensures FromGcpAuth(SdkToken(token, None), now).tokenTtl == 3000
    ensures ParseRfc3339(FromGcpAuth(SdkToken(token, None), now).expiry) == Some(now + 3000)
  {
  }

  /** An expiry already in the past still gives a non-negative ttl: how long ago it was. */
  lemma FromGcpAuthPast(token: string, e: int, now: int)
    requires Renderable(e) && e <= now <= e + I64_MAX
    ensures FromGcpAuth(SdkToken(token, Some(e)), now).tokenTtl == now - e
  {
  }

  /**
   * Both ways of building the token write the same instant as the same text:
   * twenty characters, whole seconds, `Z` suffix.
   */
  lemma SameExpiryFormat(obj: map<string, Wire>, t: SdkToken, now: int)
    requires ResponseRenderable(obj) && Deserialize(obj).Ok?
    requires Renderable(EffectiveExpiry(t, now))
    requires -I64_MAX <= EffectiveExpiry(t, now) - now <= I64_MAX
    requires DecodeTimestamp(obj[ExpiryReadName]) == Ok(EffectiveExpiry(t, now))
    ensures Deserialize(obj).value.expiry == FromGcpAuth(t, now).expiry
    ensures var s := FromGcpAuth(t, now).expiry;
      |s| == 20 && s[19] == 'Z' && '.' !in s
  {
    var e := EffectiveExpiry(t, now);
    Rfc3339Shape(e);
  }

  /** The epoch itself is rendered as 1970-01-01T00:00:00Z. */
  lemma TimestampToIsoEpoch()
    ensures TimestampToIso(U64(0)) == Ok("1970-01-01T00:00:00Z")
    ensures TimestampToIso(I64(-1)).Ok?
  {
    Rfc3339Epoch();
  }
}
