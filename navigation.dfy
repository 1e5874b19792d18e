/** `_get_next_urls`: the neighbouring stations an infobox links to.  A row
    that shows one of the arrows ◄ or ► lists the adjacent stations; every
    link in it whose target is an article path (`/wiki/` followed by a title
    without a colon) is collected, percent-decoded, into a set. */
module Navigation {
  import opened PyStr
  import opened PyUrl
  import opened Infobox

  const PreviousMark := "◄"
  const NextMark := "►"
  const ArticlePrefix := "/wiki/"

  /** The test of line 55. */
  predicate IsNavigationRow(row: Row) {
    Contains(row.text, PreviousMark) || Contains(row.text, NextMark)
  }

  /** `((?!:).)*`: no colon, and (as `.` does not match it) no line break. */
  predicate PlainTitle(t: string) {
    forall i :: 0 <= i < |t| ==> t[i] != ':' && t[i] != '\n'
  }

  /** `re.compile('^(/wiki/)((?!:).)*$')` as `find_all` applies it with
      `search`: the prefix at the start, then a plain title up to the end, where
      `$` also matches just before one final line break. */
  predicate IsArticleHref(h: string) {
    && ArticlePrefix <= h
    && var t := h[|ArticlePrefix|..];
       PlainTitle(t) || (|t| > 0 && t[|t| - 1] == '\n' && PlainTitle(t[..|t| - 1]))
  }

  /** `row.find_all('a', href=...)`: the links of the row whose target matches,
      in document order. */
  function ArticleLinks(hrefs: seq<string>): (links: seq<string>)
    ensures forall h :: h in links <==> h in hrefs && IsArticleHref(h)
    ensures |links| <= |hrefs|
  {
    if |hrefs| == 0 then []
    else (if IsArticleHref(hrefs[0]) then [hrefs[0]] else []) + ArticleLinks(hrefs[1..])
  }

  /** Line 57 for one row: the decoded targets of its article links. */
  function RowUrls(row: Row): (urls: set<string>)
    ensures forall u :: u in urls ==> ArticlePrefix <= u
  {
    ArticleLinksDecoded(ArticleLinks(row.hrefs));
    set h | h in ArticleLinks(row.hrefs) :: Unquote(h)
  }

  /** Decoding keeps the `/wiki/` prefix, which has no `%` in it. */
  lemma ArticleLinksDecoded(links: seq<string>)
    requires forall h :: h in links ==> IsArticleHref(h)
    ensures forall h :: h in links ==> ArticlePrefix <= Unquote(h)
  {
    forall h | h in links
      ensures ArticlePrefix <= Unquote(h)
    {
      assert h == ArticlePrefix + h[|ArticlePrefix|..];
      UnquotePrefix(ArticlePrefix, h[|ArticlePrefix|..]);
    }
  }

  /** What the loop of `_get_next_urls` collects from `rows`. */
  function NextUrls(rows: Rows): (urls: set<string>)
    ensures forall u :: u in urls ==> ArticlePrefix <= u
  {
    if |rows| == 0 then {}
    else (if IsNavigationRow(rows[0]) then RowUrls(rows[0]) else {}) + NextUrls(rows[1..])
  }

  /** `_get_next_urls` (lines 51-58). */
  method GetNextUrls(rows: Rows) returns (urls: set<string>)
    ensures urls == NextUrls(rows)
  {
    urls := {};
    for i := 0 to |rows|
      invariant urls + NextUrls(rows[i..]) == NextUrls(rows)
    {
      assert rows[i..][1..] == rows[i + 1..];
      var text := rows[i].text;
      if Contains(text, PreviousMark) || Contains(text, NextMark) {
        var objs := ArticleLinks(rows[i].hrefs);
        urls := urls + set o | o in objs :: Unquote(o);
      }
    }
  }

  /** A url is collected exactly when some navigation row of the infobox links
      to an article path that decodes to it. */
  lemma {:induction false} NextUrlsMembership(rows: Rows, u: string)
    ensures u in NextUrls(rows) <==>
      exists row, h :: row in rows && IsNavigationRow(row) && h in row.hrefs && IsArticleHref(h) && u == Unquote(h)
  {
    if |rows| > 0 {
      NextUrlsMembership(rows[1..], u);
      assert forall row :: row in rows <==> row == rows[0] || row in rows[1..];
    }
  }

  /** Only which rows there are matters, not their order or repetition. */
  lemma NextUrlsRowSet(rows: Rows, rows': Rows)
    requires forall row :: row in rows <==> row in rows'
    ensures NextUrls(rows) == NextUrls(rows')
  {
    forall u
      ensures u in NextUrls(rows) <==> u in NextUrls(rows')
    {
      NextUrlsMembership(rows, u);
      NextUrlsMembership(rows', u);
    }
  }

  /** The regular expression sees the target before decoding: a colon written
      as `%3A` passes it, and the decoded url then holds a colon. */
  lemma EncodedColonPasses()
    ensures IsArticleHref("/wiki/Talk%3AB")
    ensures !IsArticleHref("/wiki/Talk:B")
    ensures Unquote("/wiki/Talk%3AB") == "/wiki/Talk:B"
  {
    EncodedColonIsPlain();
    ColonIsNotPlain();
    DecodeTalkColon();
  }

  lemma EncodedColonIsPlain()
    ensures IsArticleHref("/wiki/Talk%3AB")
  {
    ArticleHrefOf("Talk%3AB");
    assert ArticlePrefix + "Talk%3AB" == "/wiki/Talk%3AB";
  }

  lemma ColonIsNotPlain()
    ensures !IsArticleHref("/wiki/Talk:B")
  {
    assert "/wiki/Talk:B"[|ArticlePrefix|..] == "Talk:B";
    assert "Talk:B"[4] == ':' && "Talk:B"[..5][4] == ':';
  }

  lemma DecodeTalkColon()
    ensures Unquote("/wiki/Talk%3AB") == "/wiki/Talk:B"
  {
    assert "/wiki/Talk%3AB" == "/wiki/Talk" + "%3AB";
    UnquotePrefix("/wiki/Talk", "%3AB");
    DecodeColonEscape();
    assert "/wiki/Talk" + ":B" == "/wiki/Talk:B";
  }

  lemma DecodeColonEscape()
    ensures Unquote("%3AB") == ":B"
  {
    assert AsciiEscapeAt("%3AB");
    assert "%3AB"[3..] == "B";
    assert Unquote("B") == "B";
  }

  /** `/wiki/` followed by a plain title is an article path. */
  lemma ArticleHrefOf(t: string)
    requires PlainTitle(t)
    ensures IsArticleHref(ArticlePrefix + t)
  {
    assert (ArticlePrefix + t)[|ArticlePrefix|..] == t;
  }

  /** A navigation row linking two stations and a namespace page (a title with
      a colon): the two station paths are collected as written. */
  lemma NeighbourLinks(text: string, t1: string, t2: string, ns: string)
    requires PlainTitle(t1) && PlainTitle(t2) && ':' in ns
    requires forall i :: 0 <= i < |t1| ==> t1[i] != '%'
    requires forall i :: 0 <= i < |t2| ==> t2[i] != '%'
    ensures RowUrls(Row(text, [ArticlePrefix + t1, ArticlePrefix + ns, ArticlePrefix + t2]))
            == {ArticlePrefix + t1, ArticlePrefix + t2}
  {
    var a, b := ArticlePrefix + t1, ArticlePrefix + t2;
    ArticleHrefOf(t1);
    ArticleHrefOf(t2);
    assert !IsArticleHref(ArticlePrefix + ns) by {
      var k :| 0 <= k < |ns| && ns[k] == ':';
      assert (ArticlePrefix + ns)[|ArticlePrefix|..] == ns;
      if |ns| > 0 && ns[|ns| - 1] == '\n' {
        assert ns[..|ns| - 1][k] == ':';
      }
    }
    assert ArticleLinks([a, ArticlePrefix + ns, b]) == [a, b];
    UnprefixedEscapes(t1);
    UnprefixedEscapes(t2);
    assert a in RowUrls(Row(text, [a, ArticlePrefix + ns, b]));
    assert b in RowUrls(Row(text, [a, ArticlePrefix + ns, b]));
  }

  lemma UnprefixedEscapes(t: string)
    requires forall i :: 0 <= i < |t| ==> t[i] != '%'
    ensures Unquote(ArticlePrefix + t) == ArticlePrefix + t
  {
    NoPercentInPrefix();
    UnquotePrefix(ArticlePrefix, t);
    assert Unquote(t) == t;
  }

  lemma NoPercentInPrefix()
    ensures forall i :: 0 <= i < |ArticlePrefix| ==> ArticlePrefix[i] != '%'
  {
  }

  /** The navigation row of Kagoshima station, whose links to the neighbouring
      stations are kept and whose help link (a namespace page) is dropped. */
  lemma KagoshimaNavigation()
    ensures NextUrls([Row("◄鹿児島中央駅 竜ヶ水►", ["/wiki/鹿児島中央駅", "/wiki/Help:IPA", "/wiki/竜ヶ水"]),
                      Row("所属路線", ["/wiki/日豊本線"])])
            == {"/wiki/鹿児島中央駅", "/wiki/竜ヶ水"}
  {
    var row := Row("◄鹿児島中央駅 竜ヶ水►", ["/wiki/鹿児島中央駅", "/wiki/Help:IPA", "/wiki/竜ヶ水"]);
    var other := Row("所属路線", ["/wiki/日豊本線"]);
    KagoshimaRowKinds();
    assert "Help:IPA"[4] == ':';
    NeighbourLinks(row.text, "鹿児島中央駅", "竜ヶ水", "Help:IPA");
    KagoshimaPaths();
    assert [row, other][1..] == [other];
  }

  lemma KagoshimaPaths()
    ensures ArticlePrefix + "鹿児島中央駅" == "/wiki/鹿児島中央駅"
    ensures ArticlePrefix + "竜ヶ水" == "/wiki/竜ヶ水"
    ensures ArticlePrefix + "Help:IPA" == "/wiki/Help:IPA"
  {
  }

  lemma KagoshimaRowKinds()
    ensures IsNavigationRow(Row("◄鹿児島中央駅 竜ヶ水►", ["/wiki/鹿児島中央駅", "/wiki/Help:IPA", "/wiki/竜ヶ水"]))
    ensures !IsNavigationRow(Row("所属路線", ["/wiki/日豊本線"]))
  {
    assert OccursAt("◄鹿児島中央駅 竜ヶ水►", PreviousMark, 0);
    AbsentSeparator("所属路線", PreviousMark);
    AbsentSeparator("所属路線", NextMark);
  }
}
