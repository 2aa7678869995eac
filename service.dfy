/** The two operations together: what the writer stores, the reader lists. */
module Service {
  import opened Wrappers
  import opened Deals
  import opened Reader
  import opened Writer

  /**
   * A deal the writer creates, priced at most at its regular price and at most at the
   * default ceiling, is listed by a query without parameters as soon as it is stored. The
   * store returns the newest deal first, ahead of any `others`: the deal is on the page
   * unless a full page of deals with a strictly larger discount pushes it off.
   */
  lemma CreatedIsListed(adminToken: Option<string>, headers: map<string, string>, b: Body, id: string,
                        others: seq<Deal>)
    requires Create(adminToken, headers, Some(b)).Created?
    requires Create(adminToken, headers, Some(b)).record.priceEur <= Create(adminToken, headers, Some(b)).record.regularEur
    requires Create(adminToken, headers, Some(b)).record.priceEur <= DefaultMaxPrice
    ensures var d := Stored(id, Create(adminToken, headers, Some(b)).record);
      var page := Listing([d] + others, ParseQuery(None, Absent, Absent));
      d in page || (|page| == PageSize && forall e :: e in page ==> CutOf(e) > CutOf(d))
  {
    ValidRecordIsListed(Create(adminToken, headers, Some(b)).record, id, others);
  }

  /** The same for any valid record stored ahead of `others`. */
  lemma ValidRecordIsListed(r: Record, id: string, others: seq<Deal>)
    requires ValidRecord(r) && r.priceEur <= r.regularEur && r.priceEur <= DefaultMaxPrice
    ensures var d := Stored(id, r);
      var page := Listing([d] + others, ParseQuery(None, Absent, Absent));
      d in page || (|page| == PageSize && forall e :: e in page ==> CutOf(e) > CutOf(d))
  {
    var d := Stored(id, r);
    CutNotNegative(r.priceEur, r.regularEur);
    var query := ParseQuery(None, Absent, Absent);
    assert query == Query("", Some(0.0), Some(DefaultMaxPrice));
    assert Wanted(query, d);
    ListingFirst(d, others, query);
  }

  /** Alone in the store, a created deal is the whole page. */
  lemma ValidRecordAloneIsListed(r: Record, id: string)
    requires ValidRecord(r) && r.priceEur <= r.regularEur && r.priceEur <= DefaultMaxPrice
    ensures Listing([Stored(id, r)], ParseQuery(None, Absent, Absent)) == [Stored(id, r)]
  {
    var d := Stored(id, r);
    ValidRecordIsListed(r, id, []);
    assert [d] + [] == [d];
    SingletonPage(Listing([d], ParseQuery(None, Absent, Absent)), d);
  }

  lemma SingletonPage(page: seq<Deal>, d: Deal)
    requires |page| <= 1 && d in page
    ensures page == [d]
  {
  }
}
