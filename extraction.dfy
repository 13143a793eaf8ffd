/**
 * Turning the listing items of one genre page into CSV rows: the five
 * required elements checked in order, the optional comment counter, and the
 * fixed ten-column row stamped with the capture time.
 */
module Extraction {
  import opened Results
  import opened Text
  import opened Naming

  /** One genre of the ranking: English code (`genre_en`), Japanese name (`genre_jp`) and page URL. */
  datatype Genre = Genre(en: string, jp: string, url: string)

  /** The `.newsFeed_item_link` anchor, with its `href` attribute when it has one. */
  datatype Anchor = Anchor(href: Option<string>)

  /**
   * One `.newsFeed_item` as the selectors see it: the raw `.text` of each
   * element that `select_one` found, or None when it found nothing.
   */
  datatype Item = Item(
    rank: Option<string>,
    title: Option<string>,
    media: Option<string>,
    date: Option<string>,
    link: Option<Anchor>,
    comment: Option<string>)

  /** The five elements an item must have, in the order they are checked. */
  datatype Field = Rank | Title | Media | Date | Link

  function Position(f: Field): nat {
    match f
    case Rank => 0
    case Title => 1
    case Media => 2
    case Date => 3
    case Link => 4
  }

  predicate Present(item: Item, f: Field) {
    match f
    case Rank => item.rank.Some?
    case Title => item.title.Some?
    case Media => item.media.Some?
    case Date => item.date.Some?
    case Link => item.link.Some?
  }

  /**
   * Why an item stopped the genre: a required element is missing (the
   * `ValueError`), or the link has no `href` (the `KeyError`). `index` is the
   * item's position on the page.
   */
  datatype ItemError = MissingElement(index: nat, field: Field) | MissingHref(index: nat)

  /** One CSV line, in the order of Columns. */
  type Row = seq<string>

  const Columns: seq<string> :=
    ["scrp_date", "scrp_time", "genre_en", "genre_jp", "rank", "media_jp", "title", "comment", "link", "date_original"]

  /** The comment cell: the stripped counter text, or "N/A" without one, with every "件/時" removed. */
  function NormalizeComment(comment: Option<string>): string {
    RemoveNoise(if comment.Some? then Strip(comment.value) else "N/A")
  }

  /** The row for the item at position `index`, or the first reason it has none. */
  function ExtractRow(item: Item, index: nat, genre: Genre, t: Timestamp): Result<Row, ItemError> {
    if item.rank.None? then Err(MissingElement(index, Rank))
    else if item.title.None? then Err(MissingElement(index, Title))
    else if item.media.None? then Err(MissingElement(index, Media))
    else if item.date.None? then Err(MissingElement(index, Date))
    else if item.link.None? then Err(MissingElement(index, Link))
    else if item.link.value.href.None? then Err(MissingHref(index))
    else Ok(RowOf(item, genre, t))
  }

  /** The row of an item that has all five elements and an href: every text stripped, the comment normalised. */
  function RowOf(item: Item, genre: Genre, t: Timestamp): Row
    requires item.rank.Some? && item.title.Some? && item.media.Some? && item.date.Some? && HasHref(item)
  {
    AssembleRow(t, genre, Strip(item.rank.value), Strip(item.media.value), Strip(item.title.value),
                NormalizeComment(item.comment), Strip(item.link.value.href.value), Strip(item.date.value))
  }

  /** The list appended to `news_data`, in the order of Columns. */
  function AssembleRow(t: Timestamp, genre: Genre, rank: string, media: string, title: string,
                       comment: string, link: string, date: string): Row
  {
    [DateCell(t), TimeCell(t), genre.en, genre.jp, rank, media, title, comment, link, date]
  }

  /** The link element is there and carries an href. */
  predicate HasHref(item: Item) {
    item.link.Some? && item.link.value.href.Some?
  }

  /**
   * The item loop over per-item outcomes: rows are appended in order until
   * the first error, which ends the loop and discards the rows.
   */
  function Collect<T, E>(results: seq<Result<T, E>>): Result<seq<T>, E> {
    if results == [] then Ok([])
    else
      match Collect(results[..|results| - 1])
      case Err(e) => Err(e)
      case Ok(values) =>
        match results[|results| - 1]
        case Err(e) => Err(e)
        case Ok(v) => Ok(values + [v])
  }

  /** What each item of the page yields, by position. */
  function ItemResults(items: seq<Item>, genre: Genre, t: Timestamp): (rs: seq<Result<Row, ItemError>>)
    ensures |rs| == |items|
    ensures forall i :: 0 <= i < |items| ==> rs[i] == ExtractRow(items[i], i, genre, t)
  {
    seq(|items|, i requires 0 <= i < |items| => ExtractRow(items[i], i, genre, t))
  }

  /** The outcome of the whole item loop over one page. */
  function ExtractAll(items: seq<Item>, genre: Genre, t: Timestamp): Result<seq<Row>, ItemError> {
    Collect(ItemResults(items, genre, t))
  }

  // Properties of one item

  /**
   * An item yields a row exactly when all five elements and the href are
   * there; otherwise the error names the first missing element in the order
   * rank, title, media, date, link.
   */
  lemma ExtractRowFails(item: Item, index: nat, genre: Genre, t: Timestamp, f: Field)
    ensures ExtractRow(item, index, genre, t) == Err(MissingElement(index, f)) <==>
      !Present(item, f) && forall g: Field :: Position(g) < Position(f) ==> Present(item, g)
  {
    if !Present(item, f) && forall g: Field :: Position(g) < Position(f) ==> Present(item, g) {
      assert Present(item, Rank) || f == Rank;
      assert Present(item, Title) || Position(f) <= 1;
      assert Present(item, Media) || Position(f) <= 2;
      assert Present(item, Date) || Position(f) <= 3;
    }
  }

  /** An item with all five elements fails only for want of an href, and otherwise yields a row. */
  lemma ExtractRowOkIff(item: Item, index: nat, genre: Genre, t: Timestamp)
    ensures ExtractRow(item, index, genre, t).Ok? <==> (forall f: Field :: Present(item, f)) && HasHref(item)
    ensures ExtractRow(item, index, genre, t) == Err(MissingHref(index)) <==>
      (forall f: Field :: Present(item, f)) && !HasHref(item)
  {
    if item.rank.None? {
      assert !Present(item, Rank);
    } else if item.title.None? {
      assert !Present(item, Title);
    } else if item.media.None? {
      assert !Present(item, Media);
    } else if item.date.None? {
      assert !Present(item, Date);
    } else if item.link.None? {
      assert !Present(item, Link);
    } else {
      forall f: Field ensures Present(item, f) {
        match f
        case Rank => case Title => case Media => case Date => case Link =>
      }
    }
  }

  /**
   * The ten cells of a row: the capture date and time, the genre, then the
   * stripped element texts, the normalised comment, the stripped href and
   * the stripped date, one cell per column.
   */
  lemma RowLayout(item: Item, index: nat, genre: Genre, t: Timestamp)
    requires ExtractRow(item, index, genre, t).Ok?
    ensures var row := ExtractRow(item, index, genre, t).value;
      && |row| == |Columns| == 10
      && row[0] == DateCell(t) && row[1] == TimeCell(t)
      && row[2] == genre.en && row[3] == genre.jp
      && row[4] == Strip(item.rank.value) && row[5] == Strip(item.media.value)
      && row[6] == Strip(item.title.value) && row[7] == NormalizeComment(item.comment)
      && row[8] == Strip(item.link.value.href.value) && row[9] == Strip(item.date.value)
      && IsStripped(row[4]) && IsStripped(row[5]) && IsStripped(row[6])
      && IsStripped(row[8]) && IsStripped(row[9])
  {
    var rank, media, title := Strip(item.rank.value), Strip(item.media.value), Strip(item.title.value);
    var link, date := Strip(item.link.value.href.value), Strip(item.date.value);
    assert ExtractRow(item, index, genre, t).value == RowOf(item, genre, t);
    AssembleRowCells(t, genre, rank, media, title, NormalizeComment(item.comment), link, date);
  }

  lemma AssembleRowCells(t: Timestamp, genre: Genre, rank: string, media: string, title: string,
                         comment: string, link: string, date: string)
    ensures var row := AssembleRow(t, genre, rank, media, title, comment, link, date);
      && |row| == 10
      && row[0] == DateCell(t) && row[1] == TimeCell(t) && row[2] == genre.en && row[3] == genre.jp
      && row[4] == rank && row[5] == media && row[6] == title && row[7] == comment && row[8] == link && row[9] == date
  {
  }

  /** Without a comment element the cell is "N/A", which removal leaves as it is. */
  lemma MissingCommentIsNA()
    ensures NormalizeComment(None) == "N/A"
  {
    assert !NoiseAt("N/A", 0);
    assert !ContainsNoise("N/A");
    RemoveNoiseFixedIff("N/A");
  }

  /**
   * A counter element whose text is a token-free value followed by "件/時"
   * and surrounding whitespace yields that value.
   */
  lemma CommentLosesSuffix(text: string, lead: string, value: string, trail: string)
    requires text == lead + value + NoiseToken + trail
    requires AllSpace(lead) && AllSpace(trail) && (value != [] ==> !IsSpace(value[0]))
    requires !ContainsNoise(value)
    ensures NormalizeComment(Some(text)) == value
  {
    assert IsStripped(value + NoiseToken) by {
      if value != [] { assert (value + NoiseToken)[0] == value[0]; }
    }
    assert text == lead + (value + NoiseToken) + trail;
    StripUnique(lead, value + NoiseToken, trail);
    RemoveNoiseDropsSuffix(value);
    RemoveNoiseFixedIff(value);
  }

  // Properties of the item loop

  /** Once an outcome is an error, further iterations keep that error. */
  lemma {:induction false} CollectErrorPersists<T, E>(results: seq<Result<T, E>>, m: nat)
    requires m <= |results| && Collect(results[..m]).Err?
    ensures Collect(results) == Collect(results[..m])
    decreases |results| - m
  {
    if m < |results| {
      var init := results[..|results| - 1];
      assert init[..m] == results[..m];
      CollectErrorPersists(init, m);
    } else {
      assert results[..m] == results;
    }
  }

  /**
   * Collect succeeds exactly when every outcome does, and then keeps every
   * value in order; otherwise its error is the first error in the sequence.
   */
  lemma {:induction false} CollectSpec<T, E>(results: seq<Result<T, E>>)
    ensures Collect(results).Ok? <==> forall i :: 0 <= i < |results| ==> results[i].Ok?
    ensures Collect(results).Ok? ==>
      var vs := Collect(results).value;
      |vs| == |results| && forall i :: 0 <= i < |results| ==> vs[i] == results[i].value
    ensures Collect(results).Err? ==>
      exists k :: 0 <= k < |results| && results[k] == Err(Collect(results).error) &&
        forall j :: 0 <= j < k ==> results[j].Ok?
  {
    if results != [] {
      var init := results[..|results| - 1];
      CollectSpec(init);
      assert forall i :: 0 <= i < |init| ==> init[i] == results[i];
      if Collect(init).Err? {
        var k :| 0 <= k < |init| && init[k] == Err(Collect(init).error) && forall j :: 0 <= j < k ==> init[j].Ok?;
        assert results[k] == init[k];
      } else if results[|results| - 1].Err? {
        assert results[|init|] == Err(Collect(results).error);
      }
    }
  }

  /** Every error of ExtractRow names the position it was given. */
  lemma ErrorIndex(item: Item, index: nat, genre: Genre, t: Timestamp)
    requires ExtractRow(item, index, genre, t).Err?
    ensures ExtractRow(item, index, genre, t).error.index == index
  {
  }

  /**
   * The page yields rows exactly when every item does; then there is one
   * row per item, in page order. Otherwise the error is that of the first
   * failing item, and no row is kept.
   */
  lemma ExtractAllSpec(items: seq<Item>, genre: Genre, t: Timestamp)
    ensures ExtractAll(items, genre, t).Ok? <==>
      forall i :: 0 <= i < |items| ==> ExtractRow(items[i], i, genre, t).Ok?
    ensures ExtractAll(items, genre, t).Ok? ==>
      var rows := ExtractAll(items, genre, t).value;
      |rows| == |items| && forall i :: 0 <= i < |items| ==> rows[i] == ExtractRow(items[i], i, genre, t).value
    ensures ExtractAll(items, genre, t).Err? ==>
      var e := ExtractAll(items, genre, t).error;
      && e.index < |items|
      && ExtractRow(items[e.index], e.index, genre, t) == Err(e)
      && forall i :: 0 <= i < e.index ==> ExtractRow(items[i], i, genre, t).Ok?
  {
    var rs := ItemResults(items, genre, t);
    CollectSpec(rs);
    if ExtractAll(items, genre, t).Err? {
      var e := ExtractAll(items, genre, t).error;
      var k :| 0 <= k < |rs| && rs[k] == Err(e) && forall j :: 0 <= j < k ==> rs[j].Ok?;
      ErrorIndex(items[k], k, genre, t);
    }
  }

  /** Every row of a page carries the same capture date and time and the page's genre. */
  lemma RowsShareStamp(items: seq<Item>, genre: Genre, t: Timestamp)
    requires ExtractAll(items, genre, t).Ok?
    ensures forall row <- ExtractAll(items, genre, t).value ::
      |row| == 10 && row[0] == DateCell(t) && row[1] == TimeCell(t) && row[2] == genre.en && row[3] == genre.jp
  {
    ExtractAllSpec(items, genre, t);
    var rows := ExtractAll(items, genre, t).value;
    forall row <- rows
      ensures |row| == 10 && row[0] == DateCell(t) && row[1] == TimeCell(t) && row[2] == genre.en && row[3] == genre.jp
    {
      var i :| 0 <= i < |rows| && rows[i] == row;
      RowLayout(items[i], i, genre, t);
    }
  }
}
