/** The one entity of the service: a discounted physical game listing. */
module Deals {
  import opened Wrappers

  /** The market every record of this service belongs to. */
  const Country := "FR"
  const Format := "PHYSICAL"

  /**
   * A deal as the writer builds it, before the store adds its identifier and its
   * server-side creation timestamp.
   */
  datatype Record = Record(
    title: string,
    platform: string,
    retailer: string,
    url: string,
    priceEur: real,
    regularEur: real,
    cut: int,
    country: string,
    format: string,
    ean: Option<string>,
    storeLat: Option<real>,
    storeLng: Option<real>)

  /**
   * A stored deal as the reader receives it, `{ id, ...data }`. A document is free-form, so
   * the fields the reader looks at may be missing (`None`).
   */
  datatype Deal = Deal(
    id: string,
    title: Option<string>,
    platform: Option<string>,
    retailer: Option<string>,
    url: Option<string>,
    priceEur: Option<real>,
    regularEur: Option<real>,
    cut: Option<int>,
    country: string,
    format: string,
    ean: Option<string>,
    storeLat: Option<real>,
    storeLng: Option<real>)

  /** The document the store holds for a record once it has assigned `id`. */
  function Stored(id: string, r: Record): Deal
  {
    Deal(id, Some(r.title), Some(r.platform), Some(r.retailer), Some(r.url), Some(r.priceEur),
         Some(r.regularEur), Some(r.cut), r.country, r.format, r.ean, r.storeLat, r.storeLng)
  }
}
