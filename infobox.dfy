/** An infobox as the extractor sees it: the rows that the row filter of
    get_stationinfo.py keeps (`tr` elements without class, itemprop or style),
    each reduced to its text and the targets of the links inside it. */
module Infobox {
  import opened Results

  /** One infobox row: its text content and the `href` of every link in it,
      in document order. */
  datatype Row = Row(text: string, hrefs: seq<string>)

  type Rows = seq<Row>

  /** `_get_infoboxtitle`: the text of the first row; `rows[0]` raises
      IndexError on an infobox without rows. */
  function InfoboxTitle(rows: Rows): (r: Result<string>)
    ensures r.Ok? <==> |rows| > 0
    ensures r.Ok? ==> r.value == rows[0].text
    ensures r.Err? ==> r.error == IndexError
  {
    if |rows| == 0 then Err(IndexError) else Ok(rows[0].text)
  }
}
