/**
 * The create operation: an administrator posts a deal, which is authorised against the
 * configured secret, checked field by field, completed with its discount and market, and
 * handed to the store.
 */
module Writer {
  import opened Wrappers
  import opened Text
  import opened Deals

  /** The header that carries the administrator's token, in the two spellings looked up. */
  const TokenHeader := "x-admin-token"
  const TokenHeaderCapitalised := "X-Admin-Token"

  /**
   * The request body once parsed, each field as the handler reads it: a text field is
   * `None` when it is missing or falsy, a price is `None` when `Number(...)` of it is not
   * finite, a coordinate is `None` when it is not of type number.
   */
  datatype Body = Body(
    title: Option<string>,
    platform: Option<string>,
    retailer: Option<string>,
    url: Option<string>,
    priceEur: Option<real>,
    regularEur: Option<real>,
    ean: Option<string>,
    storeLat: Option<real>,
    storeLng: Option<real>)

  /** The body `{}` the handler parses when the request has none. */
  const EmptyBody := Body(None, None, None, None, None, None, None, None, None)

  /** What a create request comes to. */
  datatype Outcome =
    | MissingSecret   // the secret is not configured: an internal error (500)
    | Forbidden       // 403 forbidden
    | MalformedBody   // the body is not JSON: an internal error (500)
    | MissingFields   // 400 missing_fields
    | BadPrices       // 400 bad_prices
    | Created(record: Record)

  /** A header's value, or the empty string when the request lacks it. */
  function Header(headers: map<string, string>, name: string): string {
    if name in headers then headers[name] else ""
  }

  /**
   * The token the request presents: the lower-case header when it is non-empty, the
   * capitalised one otherwise, trimmed.
   */
  function PresentedToken(headers: map<string, string>): (t: string)
    ensures IsTrimmed(t)
    ensures Header(headers, TokenHeader) != "" ==> t == Trim(headers[TokenHeader])
    ensures Header(headers, TokenHeader) == "" ==> t == Trim(Header(headers, TokenHeaderCapitalised))
  {
    var first := Header(headers, TokenHeader);
    Trim(if first != "" then first else Header(headers, TokenHeaderCapitalised))
  }

  /** The configured secret, trimmed; empty when it is not configured. */
  function Secret(adminToken: Option<string>): (r: string)
    ensures IsTrimmed(r)
    ensures adminToken.None? ==> r == ""
  {
    Trim(adminToken.GetOr(""))
  }

  /** The request may create deals: a secret is configured and the request presents it. */
  predicate Authorised(adminToken: Option<string>, headers: map<string, string>)
    ensures Authorised(adminToken, headers) ==> adminToken.Some? && PresentedToken(headers) != ""
  {
    Secret(adminToken) != "" && PresentedToken(headers) == Secret(adminToken)
  }

  /** `String(v || "").trim()`. */
  function TextField(v: Option<string>): (r: string)
    ensures IsTrimmed(r)
    ensures v.None? ==> r == ""
  {
    Trim(v.GetOr(""))
  }

  /** A text field is missing exactly when it is absent or all white space. */
  lemma TextFieldBlank(v: Option<string>)
    ensures TextField(v) == "" <==> v.None? || forall i :: 0 <= i < |v.value| ==> IsWhitespace(v.value[i])
  {
    TrimEmpty(v.GetOr(""));
  }

  /** `String(v || "").toUpperCase().trim()`. */
  function PlatformField(v: Option<string>): (r: string)
    ensures IsTrimmed(r) && IsUpperCase(r)
  {
    var u := ToUpper(v.GetOr(""));
    TrimKeepsUpperCase(u);
    Trim(u)
  }

  /** `v ? String(v).trim() : null`: the empty string is falsy and gives no code. */
  function EanField(v: Option<string>): (r: Option<string>)
    ensures r.Some? <==> v.Some? && v.value != ""
    ensures r.Some? ==> IsTrimmed(r.value) && r.value == Trim(v.value)
  {
    if v.Some? && v.value != "" then Some(Trim(v.value)) else None
  }

  /**
   * `Math.round(((regular - price) / regular) * 100)`: the discount in percent, to the
   * nearest integer, a half rounded up.
   */
  function Cut(price: real, regular: real): (c: int)
    requires regular > 0.0
    ensures var x := 100.0 * (regular - price) / regular; x - 0.5 < c as real <= x + 0.5
  {
    (100.0 * (regular - price) / regular + 0.5).Floor
  }

  /** What every record the writer creates satisfies. */
  predicate ValidRecord(r: Record) {
    && r.title != [] && IsTrimmed(r.title)
    && r.platform != [] && IsTrimmed(r.platform) && IsUpperCase(r.platform)
    && r.retailer != [] && IsTrimmed(r.retailer)
    && r.url != [] && IsTrimmed(r.url)
    && r.regularEur > 0.0
    && r.cut == Cut(r.priceEur, r.regularEur)
    && r.country == Country && r.format == Format
    && (r.ean.Some? ==> IsTrimmed(r.ean.value))
  }

  /** The fields of a body are all present once trimmed. */
  predicate HasFields(b: Body) {
    TextField(b.title) != "" && PlatformField(b.platform) != ""
    && TextField(b.retailer) != "" && TextField(b.url) != ""
  }

  /** Both prices are finite and the regular price is positive. */
  predicate HasPrices(b: Body) {
    b.priceEur.Some? && b.regularEur.Some? && b.regularEur.value > 0.0
  }

  /** The record an authorised, complete body with valid prices yields. */
  function Build(b: Body): (r: Record)
    requires HasFields(b) && HasPrices(b)
    ensures ValidRecord(r)
  {
    var price, regular := b.priceEur.value, b.regularEur.value;
    Record(TextField(b.title), PlatformField(b.platform), TextField(b.retailer), TextField(b.url),
           price, regular, Cut(price, regular), Country, Format, EanField(b.ean), b.storeLat, b.storeLng)
  }

  /** The checks on a parsed body, in the handler's order: fields first, then prices. */
  function Validate(b: Body): (o: Outcome)
    ensures o.MissingFields? || o.BadPrices? || o.Created?
    ensures o.MissingFields? <==> !HasFields(b)
    ensures o.BadPrices? <==> HasFields(b) && !HasPrices(b)
    ensures o.Created? ==> ValidRecord(o.record)
  {
    if !HasFields(b) then MissingFields
    else if !HasPrices(b) then BadPrices
    else Created(Build(b))
  }

  /**
   * The token check, before the body is looked at: the refusal, if any. A missing secret
   * refuses every request, and so does a missing or different token.
   */
  function Refusal(adminToken: Option<string>, headers: map<string, string>): (r: Option<Outcome>)
    ensures r.None? <==> Authorised(adminToken, headers)
    ensures (r.Some? && r.value.MissingSecret?) <==> Secret(adminToken) == ""
    ensures r.Some? ==> r.value.MissingSecret? || r.value.Forbidden?
  {
    if Secret(adminToken) == "" then Some(MissingSecret)
    else if PresentedToken(headers) == "" || PresentedToken(headers) != Secret(adminToken) then Some(Forbidden)
    else None
  }

  /** The handler's answer to `POST` with the configured secret, the headers and the parsed body. */
  function Create(adminToken: Option<string>, headers: map<string, string>, body: Option<Body>): (o: Outcome)
    ensures o.Created? ==> ValidRecord(o.record) && Authorised(adminToken, headers)
    ensures o.MalformedBody? <==> Authorised(adminToken, headers) && body.None?
  {
    if Refusal(adminToken, headers).Some? then Refusal(adminToken, headers).value
    else if body.None? then MalformedBody
    else Validate(body.value)
  }

  // ---- The order of the checks ----

  /** Without a configured secret every request fails, whatever it carries. */
  lemma SecretCheckedFirst(adminToken: Option<string>, headers: map<string, string>, body: Option<Body>)
    requires adminToken.None? || forall i :: 0 <= i < |adminToken.value| ==> IsWhitespace(adminToken.value[i])
    ensures Create(adminToken, headers, body).MissingSecret?
  {
    TrimEmpty(adminToken.GetOr(""));
  }

  /** A request without the secret is refused before its body is read, malformed or not. */
  lemma TokenCheckedBeforeBody(adminToken: Option<string>, headers: map<string, string>, body: Option<Body>)
    requires Secret(adminToken) != "" && PresentedToken(headers) != Secret(adminToken)
    ensures Create(adminToken, headers, body).Forbidden?
  {
  }

  /**
   * A non-empty lower-case header wins even when it is blank: its trimmed value is empty,
   * and the request is refused whatever the capitalised header holds.
   */
  lemma BlankHeaderRefused(adminToken: Option<string>, headers: map<string, string>, body: Option<Body>)
    requires Secret(adminToken) != ""
    requires TokenHeader in headers && headers[TokenHeader] != ""
    requires forall i :: 0 <= i < |headers[TokenHeader]| ==> IsWhitespace(headers[TokenHeader][i])
    ensures Create(adminToken, headers, body).Forbidden?
  {
    TrimEmpty(headers[TokenHeader]);
    assert PresentedToken(headers) == "";
  }

  /** A created deal was posted with a non-empty token equal to the configured secret. */
  lemma CreatedOnlyWithSecret(adminToken: Option<string>, headers: map<string, string>, body: Option<Body>)
    requires Create(adminToken, headers, body).Created?
    ensures PresentedToken(headers) != "" && PresentedToken(headers) == Secret(adminToken)
    ensures body.Some?
  {
  }

  /** The fields are checked before the prices: a body missing one is refused for that. */
  lemma FieldsCheckedBeforePrices(adminToken: Option<string>, headers: map<string, string>, b: Body)
    requires Authorised(adminToken, headers) && !HasFields(b)
    ensures Create(adminToken, headers, Some(b)).MissingFields?
  {
  }

  /** Once the fields are all present, a non-finite price or a regular price of at most 0 is refused as such. */
  lemma PricesCheckedAfterFields(adminToken: Option<string>, headers: map<string, string>, b: Body)
    requires Authorised(adminToken, headers) && HasFields(b) && !HasPrices(b)
    ensures Create(adminToken, headers, Some(b)).BadPrices?
  {
  }

  /** An authorised request whose body does not parse is refused as malformed. */
  lemma UnparsedBodyRefused(adminToken: Option<string>, headers: map<string, string>)
    requires Authorised(adminToken, headers)
    ensures Create(adminToken, headers, None).MalformedBody?
  {
  }

  /** An authorised request without a body is missing its fields. */
  lemma EmptyBodyMissesFields(adminToken: Option<string>, headers: map<string, string>)
    requires Authorised(adminToken, headers)
    ensures Create(adminToken, headers, Some(EmptyBody)).MissingFields?
  {
    assert TextField(EmptyBody.title) == "";
  }

  /**
   * A request creates a deal exactly when it is authorised and its body is complete with
   * valid prices, and the deal is then the one the body describes.
   */
  lemma CreatedExactly(adminToken: Option<string>, headers: map<string, string>, b: Body)
    ensures Create(adminToken, headers, Some(b)).Created?
        <==> Authorised(adminToken, headers) && HasFields(b) && HasPrices(b)
    ensures Create(adminToken, headers, Some(b)).Created? ==> Create(adminToken, headers, Some(b)).record == Build(b)
  {
  }

  /** A created record carries the body's fields, trimmed, and its prices unchanged. */
  lemma BuildKeepsFields(b: Body)
    requires HasFields(b) && HasPrices(b)
    ensures var r := Build(b);
      && r.title == Trim(b.title.value) && r.retailer == Trim(b.retailer.value) && r.url == Trim(b.url.value)
      && r.platform == Trim(ToUpper(b.platform.value))
      && r.priceEur == b.priceEur.value && r.regularEur == b.regularEur.value
      && r.storeLat == b.storeLat && r.storeLng == b.storeLng
      && (b.ean.Some? && b.ean.value != "" ==> r.ean == Some(Trim(b.ean.value)))
      && (b.ean.None? || b.ean.value == "" ==> r.ean.None?)
  {
  }

  // ---- The discount ----

  /** A price at most the regular one gives a discount of at least 0. */
  lemma CutNotNegative(price: real, regular: real)
    requires price <= regular && regular > 0.0
    ensures Cut(price, regular) >= 0
  {
    var x := 100.0 * (regular - price) / regular;
    assert x * regular == 100.0 * (regular - price);
    assert x >= 0.0;
  }

  /** A price of at least 0 gives a discount of at most 100. */
  lemma CutAtMostHundred(price: real, regular: real)
    requires price >= 0.0 && regular > 0.0
    ensures Cut(price, regular) <= 100
  {
    var x := 100.0 * (regular - price) / regular;
    assert x * regular == 100.0 * (regular - price);
    assert x <= 100.0;
  }

  /** A lower price never gives a smaller discount. */
  lemma CutMonotone(p1: real, p2: real, regular: real)
    requires regular > 0.0 && p1 <= p2
    ensures Cut(p1, regular) >= Cut(p2, regular)
  {
    assert (regular - p1) / regular >= (regular - p2) / regular;
    assert 100.0 * (regular - p1) / regular >= 100.0 * (regular - p2) / regular;
  }

  /** The discount in a few cases: a sale, a price above the regular one, and the two halves. */
  lemma CutExamples()
    ensures Cut(40.0, 50.0) == 20
    ensures Cut(30.0, 50.0) == 40
    ensures Cut(60.0, 50.0) == -20
    ensures Cut(99.5, 100.0) == 1
    ensures Cut(100.5, 100.0) == 0
  {
    assert 100.0 * (50.0 - 40.0) / 50.0 == 20.0;
    assert 100.0 * (50.0 - 30.0) / 50.0 == 40.0;
    assert 100.0 * (50.0 - 60.0) / 50.0 == -20.0;
    assert 100.0 * (100.0 - 99.5) / 100.0 == 0.5;
    assert 100.0 * (100.0 - 100.5) / 100.0 == -0.5;
  }
}
