/** The earlier iteration of the service, app.py: the same projection and
    search over a ten-column table that has `compile_type` where the later
    one has `platform` and no package-manager column. Results are lists,
    and nothing is redacted. */
module LegacyApp {
  import opened Wrappers
  import opened PyText
  import opened SearchTerms
  import Catalog

  /** One row of the ten-column `games` table. */
  datatype LegacyRow = LegacyRow(
    name: string,
    base64: string,
    downloads: int,
    genres: string,
    url: string,
    screenshotsUrl: string,
    description: string,
    rating: string,
    compileType: string,
    addTime: int)

  /** The dict `format_data` builds: every column, URL and key included. */
  datatype LegacyRecord = LegacyRecord(
    name: string,
    base64: string,
    downloads: int,
    genres: seq<string>,
    url: string,
    screenshotsUrl: string,
    description: string,
    rating: string,
    compileType: string,
    joined: int)

  /** Genres split on commas, rating upper-cased, compile type lower-cased. */
  function LegacyProject(row: LegacyRow): LegacyRecord
  {
    LegacyRecord(row.name, row.base64, row.downloads, Split(row.genres, ','), row.url,
                 row.screenshotsUrl, row.description, Upper(row.rating), Lower(row.compileType),
                 row.addTime)
  }

  function LegacyProjected(rows: seq<LegacyRow>): (r: seq<LegacyRecord>)
    ensures |r| == |rows|
  {
    seq(|rows|, i requires 0 <= i < |rows| => LegacyProject(rows[i]))
  }

  /** `SELECT * FROM games WHERE name = name`, in table order. */
  function Named(rows: seq<LegacyRow>, name: string): (r: seq<LegacyRow>)
    ensures forall x :: x in r <==> x in rows && x.name == name
    decreases |rows|
  {
    if rows == [] then []
    else
      assert rows == [rows[0]] + rows[1..];
      (if rows[0].name == name then [rows[0]] else []) + Named(rows[1..], name)
  }

  /** A record matches a query by the shared rules, the compile type taking
      the platform's place. */
  predicate LegacyMatches(rec: LegacyRecord, q: Query)
  {
    match q
    case TagQuery(tags) => TagHit(tags, rec.genres, rec.rating, rec.compileType)
    case TextQuery(text) => TextHit(text, rec.name, rec.description)
    case Unrecognized => false
  }

  /** The records that match `q`, in catalog order. */
  function LegacyHits(recs: seq<LegacyRecord>, q: Query): (r: seq<LegacyRecord>)
    ensures |r| <= |recs|
    decreases |recs|
  {
    if recs == [] then []
    else
      LegacyHits(recs[..|recs| - 1], q) +
        (if LegacyMatches(recs[|recs| - 1], q) then [recs[|recs| - 1]] else [])
  }

  /** `format_data`: one record per row, appended in row order. */
  method FormatData(rows: seq<LegacyRow>) returns (r: seq<LegacyRecord>)
    ensures r == LegacyProjected(rows)
  {
    r := [];
    for i := 0 to |rows|
      invariant r == LegacyProjected(rows[..i])
    {
      assert LegacyProjected(rows[..i + 1]) == LegacyProjected(rows[..i]) + [LegacyProject(rows[i])];
      r := r + [LegacyProject(rows[i])];
    }
    assert rows[..|rows|] == rows;
  }

  /** `/game/<name>`: every row with that name, projected and not redacted. */
  method GetGame(rows: seq<LegacyRow>, name: string) returns (r: seq<LegacyRecord>)
    ensures r == LegacyProjected(Named(rows, name))
    ensures forall i :: 0 <= i < |r| ==> r[i].name == name
  {
    var named := Named(rows, name);
    r := FormatData(named);
    assert forall i :: 0 <= i < |named| ==> named[i] in named;
  }

  /** `/search/<term>`: the matching records in catalog order, each once,
      with every field. A term with neither prefix leaves `return_data`
      unbound when it is serialised. */
  method Search(rows: seq<LegacyRow>, term: string) returns (r: Result<seq<LegacyRecord>>)
    ensures Parse(term).Unrecognized? ==> r == Err(UnboundLocalError)
    ensures !Parse(term).Unrecognized? ==> r == Ok(LegacyHits(LegacyProjected(rows), Parse(term)))
  {
    var returnData: seq<LegacyRecord>;
    if Prefix(term, 4) == "tags" {
      var tags := Split(Suffix(term, 5), ',');
      var data := FormatData(rows);
      returnData := TagSearch(data, tags);
    } else if Prefix(term, 9) == "free-text" {
      var text := Suffix(term, 10);
      var data := FormatData(rows);
      returnData := TextSearch(data, text);
    } else {
      return Err(UnboundLocalError);
    }
    r := Ok(returnData);
  }

  /** The tag branch: a game is appended, once, as soon as one tag hits it. */
  method TagSearch(data: seq<LegacyRecord>, tags: seq<string>) returns (returnData: seq<LegacyRecord>)
    ensures returnData == LegacyHits(data, TagQuery(tags))
  {
    returnData := [];
    for g := 0 to |data|
      invariant returnData == LegacyHits(data[..g], TagQuery(tags))
    {
      var game := data[g];
      assert data[..g + 1][..g] == data[..g] && data[..g + 1][g] == game;
      ghost var before := returnData;
      var t := 0;
      while t < |tags|
        invariant 0 <= t <= |tags| && returnData == before
        invariant forall u :: 0 <= u < t ==>
          !TagMatchesOne(tags[u], game.genres, game.rating, game.compileType)
      {
        if TagMatchesOne(tags[t], game.genres, game.rating, game.compileType) {
          returnData := returnData + [game];
          break;
        }
        t := t + 1;
      }
    }
    assert data[..|data|] == data;
  }

  /** The free-text branch: a game is appended when the text occurs,
      ignoring case, in its name or its description. */
  method TextSearch(data: seq<LegacyRecord>, text: string) returns (returnData: seq<LegacyRecord>)
    ensures returnData == LegacyHits(data, TextQuery(text))
  {
    returnData := [];
    for g := 0 to |data|
      invariant returnData == LegacyHits(data[..g], TextQuery(text))
    {
      var game := data[g];
      assert data[..g + 1][..g] == data[..g] && data[..g + 1][g] == game;
      if Contains(Lower(game.name), Lower(text)) || Contains(Lower(game.description), Lower(text)) {
        returnData := returnData + [game];
      }
    }
    assert data[..|data|] == data;
  }

  // =====================================================================
  // Properties

  /** A record keeps its row's columns in recoverable form: the genre list
      joins back to the column, rating and compile type agree up to case
      and are upper- and lower-case respectively. */
  lemma LegacyProjectionKeepsColumns(row: LegacyRow)
    ensures Join(LegacyProject(row).genres, ',') == row.genres
    ensures Lower(LegacyProject(row).rating) == Lower(row.rating) && HasNoLowerAscii(LegacyProject(row).rating)
    ensures Lower(LegacyProject(row).compileType) == Lower(row.compileType) && HasNoUpperAscii(LegacyProject(row).compileType)
  {
    JoinSplit(row.genres, ',');
    LowerOfUpper(row.rating);
    LowerIdempotent(row.compileType);
  }

  /** The search keeps the last record exactly when it matches. */
  lemma LegacyHitsSnoc(recs: seq<LegacyRecord>, q: Query)
    requires recs != []
    ensures LegacyHits(recs, q) ==
      LegacyHits(recs[..|recs| - 1], q) + if LegacyMatches(recs[|recs| - 1], q) then [recs[|recs| - 1]] else []
  {
  }

  /** The search result holds exactly the records that match. */
  lemma {:induction false} LegacyHitsMembers(recs: seq<LegacyRecord>, q: Query, x: LegacyRecord)
    ensures x in LegacyHits(recs, q) <==> x in recs && LegacyMatches(x, q)
    decreases |recs|
  {
    if recs != [] {
      var init, last := recs[..|recs| - 1], recs[|recs| - 1];
      assert recs == init + [last];
      LegacyHitsMembers(init, q, x);
    }
  }

  /** Each game appears in the result as often as in the catalog if it
      matches, and not at all otherwise. */
  lemma {:induction false} LegacyHitsCount(recs: seq<LegacyRecord>, q: Query, x: LegacyRecord)
    ensures multiset(LegacyHits(recs, q))[x] == if LegacyMatches(x, q) then multiset(recs)[x] else 0
    decreases |recs|
  {
    if recs != [] {
      var init, last := recs[..|recs| - 1], recs[|recs| - 1];
      assert recs == init + [last];
      LegacyHitsCount(init, q, x);
    }
  }

  /** The ten-column row a store row corresponds to: the platform column
      read as the compile type, the package-manager column dropped. */
  function FromStoreRow(row: Catalog.Row): LegacyRow
  {
    LegacyRow(row.name, row.base64, row.downloads, row.genres, row.url, row.screenshotsUrl,
              row.description, row.rating, row.platform, row.addTime)
  }

  /** A legacy record and a store record describe the same game: every
      shared field agrees, the compile type standing for the platform. */
  predicate Corresponds(l: LegacyRecord, r: Catalog.Record)
  {
    l.name == r.name && r.base64 == Some(l.base64) && l.downloads == r.downloads &&
    l.genres == r.genres && r.url == Some(l.url) && l.screenshotsUrl == r.screenshotsUrl &&
    l.description == r.description && l.rating == r.rating && l.compileType == r.platform &&
    l.joined == r.joined
  }

  /** Both iterations project a row to corresponding records, and match
      corresponding records by any query alike. */
  lemma SameMatchesAsStore(row: Catalog.Row, q: Query)
    ensures Corresponds(LegacyProject(FromStoreRow(row)), Catalog.ProjectRow(row))
    ensures LegacyMatches(LegacyProject(FromStoreRow(row)), q) <==> Catalog.Matches(Catalog.ProjectRow(row), q)
  {
  }

  /** The ten-column table a store table corresponds to, row by row. */
  function FromStoreRows(rows: seq<Catalog.Row>): seq<LegacyRow>
  {
    seq(|rows|, i requires 0 <= i < |rows| => FromStoreRow(rows[i]))
  }

  /** Position-wise correspondence of two result lists. */
  predicate AllCorrespond(legacy: seq<LegacyRecord>, store: seq<Catalog.Record>)
  {
    |legacy| == |store| && forall i :: 0 <= i < |legacy| ==> Corresponds(legacy[i], store[i])
  }

  /** Over a whole catalog, the earlier search returns, position by
      position, the same games as the later one, ahead of any redaction. */
  lemma {:induction false} SameHitsAsStore(rows: seq<Catalog.Row>, q: Query)
    ensures AllCorrespond(LegacyHits(LegacyProjected(FromStoreRows(rows)), q), Catalog.Hits(Catalog.Projected(rows), q))
    decreases |rows|
  {
    if rows != [] {
      var n := |rows|;
      var init := rows[..n - 1];
      SameHitsAsStore(init, q);
      var lp, sp := LegacyProjected(FromStoreRows(rows)), Catalog.Projected(rows);
      ProjectedPrefixes(rows);
      SameMatchesAsStore(rows[n - 1], q);
      assert lp[n - 1] == LegacyProject(FromStoreRow(rows[n - 1])) && sp[n - 1] == Catalog.ProjectRow(rows[n - 1]);
      HitsStep(lp, sp, q);
    }
  }

  /** If the searches agree on all but the last records, and the last
      records correspond and match alike, the searches agree. */
  lemma HitsStep(lp: seq<LegacyRecord>, sp: seq<Catalog.Record>, q: Query)
    requires |lp| == |sp| > 0
    requires AllCorrespond(LegacyHits(lp[..|lp| - 1], q), Catalog.Hits(sp[..|sp| - 1], q))
    requires Corresponds(lp[|lp| - 1], sp[|sp| - 1])
    requires LegacyMatches(lp[|lp| - 1], q) <==> Catalog.Matches(sp[|sp| - 1], q)
    ensures AllCorrespond(LegacyHits(lp, q), Catalog.Hits(sp, q))
  {
    var n := |lp|;
    var lx := if LegacyMatches(lp[n - 1], q) then [lp[n - 1]] else [];
    var sx := if Catalog.Matches(sp[n - 1], q) then [sp[n - 1]] else [];
    LegacyHitsSnoc(lp, q);
    Catalog.HitsSnoc(sp, q);
    AppendCorresponding(LegacyHits(lp[..n - 1], q), Catalog.Hits(sp[..n - 1], q), lx, sx);
  }

  /** Dropping the last row drops the last record in both iterations. */
  lemma ProjectedPrefixes(rows: seq<Catalog.Row>)
    requires rows != []
    ensures LegacyProjected(FromStoreRows(rows))[..|rows| - 1] == LegacyProjected(FromStoreRows(rows[..|rows| - 1]))
    ensures Catalog.Projected(rows)[..|rows| - 1] == Catalog.Projected(rows[..|rows| - 1])
  {
  }

  /** Corresponding lists extended by corresponding lists still correspond. */
  lemma AppendCorresponding(a: seq<LegacyRecord>, b: seq<Catalog.Record>, c: seq<LegacyRecord>, d: seq<Catalog.Record>)
    requires AllCorrespond(a, b) && AllCorrespond(c, d)
    ensures AllCorrespond(a + c, b + d)
  {
  }
}
