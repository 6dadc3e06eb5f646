/** The record a site parser produces and the crawler stores. */
module CrawlRecord {

  /** One paper: the six columns of the `papers` table the crawler fills.
      The table's unique key is the whole tuple, so two records are the same
      row exactly when they are equal values. */
  datatype Paper = Paper(
    conferenceName: string,
    year: int,
    title: string,
    url: string,
    authors: string,
    abstractText: string)
}
