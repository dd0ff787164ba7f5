/** The catalog engine of store.py: the `games` table as a sequence of rows,
    the projection of rows into records, the public listing, lookup, search
    and tag facets, the download counter, and the admin add and remove flows.
    A Python dict that store.py fills with a `length` counter (keys 0..n-1 in
    insertion order) is a `map<int, Record>` tied to a sequence by `Keyed`. */
module Catalog {
  import opened Wrappers
  import opened PyText
  import opened SearchTerms

  // =====================================================================
  // Data model

  /** One row of the `games` table, columns in table order. */
  datatype Row = Row(
    name: string,
    base64: string,        // the download URL re-encoded; the key of deletions and updates
    downloads: int,
    genres: string,        // comma-separated
    url: string,
    screenshotsUrl: string,
    description: string,
    rating: string,
    platform: string,
    addTime: int,
    inPackMan: bool)

  /** The dict `format_data` builds for a row. The three fields a response
      may delete are optional: `None` means the key has been `del`-eted. */
  datatype Record = Record(
    name: string,
    base64: Option<string>,
    downloads: int,
    genres: seq<string>,
    url: Option<string>,
    screenshotsUrl: string,
    description: string,
    rating: string,
    platform: string,
    joined: int,
    inPackMan: Option<bool>)

  /** What a download hands back to the client. */
  datatype Download = Download(url: string, inPackMan: bool)

  /** The three facet lists of `/tags`. */
  datatype TagLists = TagLists(genres: seq<string>, ratings: seq<string>, platforms: seq<string>)

  /** The form fields of the add-game page; an absent field is `""`. */
  datatype GameForm = GameForm(
    name: string,
    url: string,
    genres: string,
    screenshotsUrl: string,
    description: string,
    rating: string,
    platform: string,
    inPackMan: string)

  /** One checkbox of the removal page: the row key it submits and the name it shows. */
  datatype Checkbox = Checkbox(key: string, caption: string)

  /** The data of the removal page: the checkboxes and the hidden comma-joined key list. */
  datatype RemovalPage = RemovalPage(boxes: seq<Checkbox>, hiddenKeys: string)

  // =====================================================================
  // Table access: `SELECT * FROM games WHERE column = value`

  datatype Column = NameColumn | Base64Column

  function Field(row: Row, c: Column): string
  {
    match c
    case NameColumn => row.name
    case Base64Column => row.base64
  }

  /** Row `i` is the first row whose column `c` holds `v`. */
  predicate IsFirst(rows: seq<Row>, c: Column, v: string, i: int)
  {
    0 <= i < |rows| && Field(rows[i], c) == v &&
    forall j :: 0 <= j < i ==> Field(rows[j], c) != v
  }

  /** The index of the first row whose column `c` holds `v`, if any. */
  function FirstWith(rows: seq<Row>, c: Column, v: string): (r: Option<nat>)
    ensures r.None? <==> forall i :: 0 <= i < |rows| ==> Field(rows[i], c) != v
    ensures r.Some? ==> IsFirst(rows, c, v, r.value)
    decreases |rows|
  {
    if rows == [] then None
    else if Field(rows[0], c) == v then Some(0)
    else
      var rest := FirstWith(rows[1..], c, v);
      assert forall i :: 1 <= i < |rows| ==> rows[i] == rows[1..][i - 1];
      if rest.None? then None else Some(rest.value + 1)
  }

  /** The rows whose column `c` equals `v`, in table order. */
  function Select(rows: seq<Row>, c: Column, v: string): (r: seq<Row>)
    ensures forall x :: x in r <==> x in rows && Field(x, c) == v
    ensures r == [] <==> forall i :: 0 <= i < |rows| ==> Field(rows[i], c) != v
    ensures r != [] ==> exists i :: IsFirst(rows, c, v, i) && r[0] == rows[i]
    decreases |rows|
  {
    if rows == [] then []
    else
      var rest := Select(rows[1..], c, v);
      if Field(rows[0], c) == v then
        assert IsFirst(rows, c, v, 0);
        [rows[0]] + rest
      else
        assert forall i :: 1 <= i < |rows| ==> rows[i] == rows[1..][i - 1];
        assert forall i :: IsFirst(rows[1..], c, v, i) ==> IsFirst(rows, c, v, i + 1);
        rest
  }

  // =====================================================================
  // Projection and redaction

  /** The record `format_data` builds from a row: genres split on commas,
      rating upper-cased, platform lower-cased. */
  function ProjectRow(row: Row): Record
  {
    Record(row.name, Some(row.base64), row.downloads, Split(row.genres, ','),
           Some(row.url), row.screenshotsUrl, row.description,
           Upper(row.rating), Lower(row.platform), row.addTime, Some(row.inPackMan))
  }

  /** A record straight from the table still has every field. */
  predicate Stored(rec: Record)
  {
    rec.base64.Some? && rec.url.Some? && rec.inPackMan.Some?
  }

  function Projected(rows: seq<Row>): (r: seq<Record>)
    ensures |r| == |rows|
    ensures forall x :: x in r ==> Stored(x)
  {
    seq(|rows|, i requires 0 <= i < |rows| => ProjectRow(rows[i]))
  }

  /** `m` is the dict that holds `s[k]` under key `k` and has no other keys. */
  ghost predicate Keyed(m: map<int, Record>, s: seq<Record>)
  {
    (forall k :: k in m <==> 0 <= k < |s|) &&
    forall k :: 0 <= k < |s| ==> m[k] == s[k]
  }

  /** The fields every response keeps. */
  predicate SameShownFields(a: Record, b: Record)
  {
    a.name == b.name && a.downloads == b.downloads && a.genres == b.genres &&
    a.screenshotsUrl == b.screenshotsUrl && a.description == b.description &&
    a.rating == b.rating && a.platform == b.platform && a.joined == b.joined
  }

  /** `del rec["URL"]`, `del rec["base64"]` unless the caller is internal,
      `del rec["in_pack_man"]`. */
  function Redact(rec: Record, internal: bool): Record
  {
    rec.(url := None, inPackMan := None, base64 := if internal then rec.base64 else None)
  }

  /** Each record redacted: no URL and no package-manager flag, the encoded
      key only for an internal caller, every other field as it was. */
  function Redacted(recs: seq<Record>, internal: bool): (r: seq<Record>)
    ensures |r| == |recs|
    ensures forall i :: 0 <= i < |r| ==>
      r[i].url.None? && r[i].inPackMan.None? && SameShownFields(r[i], recs[i])
    ensures forall i :: 0 <= i < |r| ==>
      r[i].base64 == if internal then recs[i].base64 else None
  {
    seq(|recs|, i requires 0 <= i < |recs| => Redact(recs[i], internal))
  }

  // =====================================================================
  // Search

  /** A record matches a query by the shared rules; an unrecognized query matches nothing. */
  predicate Matches(rec: Record, q: Query)
  {
    match q
    case TagQuery(tags) => TagHit(tags, rec.genres, rec.rating, rec.platform)
    case TextQuery(text) => TextHit(text, rec.name, rec.description)
    case Unrecognized => false
  }

  /** The records that match `q`, in catalog order. */
  function Hits(recs: seq<Record>, q: Query): (r: seq<Record>)
    ensures |r| <= |recs|
    decreases |recs|
  {
    if recs == [] then []
    else Hits(recs[..|recs| - 1], q) + (if Matches(recs[|recs| - 1], q) then [recs[|recs| - 1]] else [])
  }

  // =====================================================================
  // Tag facets

  /** Every genre of every record, in catalog order, repeats kept. */
  function AllGenres(recs: seq<Record>): seq<string>
    decreases |recs|
  {
    if recs == [] then [] else AllGenres(recs[..|recs| - 1]) + recs[|recs| - 1].genres
  }

  function Ratings(recs: seq<Record>): seq<string>
    decreases |recs|
  {
    if recs == [] then [] else Ratings(recs[..|recs| - 1]) + [recs[|recs| - 1].rating]
  }

  function Platforms(recs: seq<Record>): seq<string>
    decreases |recs|
  {
    if recs == [] then [] else Platforms(recs[..|recs| - 1]) + [recs[|recs| - 1].platform]
  }

  // =====================================================================
  // Writes

  /** `UPDATE games SET downloads = v WHERE base64 = key`. */
  function SetDownloads(rows: seq<Row>, key: string, v: int): (r: seq<Row>)
    ensures |r| == |rows|
    ensures forall i :: 0 <= i < |rows| ==>
      r[i].downloads == if rows[i].base64 == key then v else rows[i].downloads
    ensures forall i :: 0 <= i < |rows| ==> r[i].(downloads := rows[i].downloads) == rows[i]
  {
    seq(|rows|, i requires 0 <= i < |rows| =>
      if rows[i].base64 == key then rows[i].(downloads := v) else rows[i])
  }

  /** The name as stored: spaces become underscores. */
  function StoredName(name: string): string
  {
    ReplaceChar(name, ' ', '_')
  }

  /** The name as shown on the admin pages: underscores become spaces. */
  function DisplayName(name: string): string
  {
    ReplaceChar(name, '_', ' ')
  }

  /** The row `add_game` inserts: a new game starts with one download, its
      rating upper-cased, its platform lower-cased, and the package-manager
      flag set exactly when the form field is non-empty. */
  function NewRow(form: GameForm, encodedUrl: string, now: int): (r: Row)
    ensures r.downloads == 1 && ' ' !in r.name && |r.name| == |form.name|
    ensures forall i :: 0 <= i < |form.name| ==> r.name[i] == if form.name[i] == ' ' then '_' else form.name[i]
    ensures HasNoLowerAscii(r.rating) && Lower(r.rating) == Lower(form.rating)
    ensures HasNoUpperAscii(r.platform) && Upper(r.platform) == Upper(form.platform)
    ensures r.inPackMan <==> form.inPackMan != ""
    ensures r.base64 == encodedUrl && r.url == form.url && r.genres == form.genres
    ensures r.screenshotsUrl == form.screenshotsUrl && r.description == form.description && r.addTime == now
  {
    LowerOfUpper(form.rating);
    UpperOfLower(form.platform);
    Row(StoredName(form.name), encodedUrl, 1, form.genres, form.url, form.screenshotsUrl,
        form.description, Upper(form.rating), Lower(form.platform), now, form.inPackMan != "")
  }

  /** The term `get_games_rg` passes to `search`: `$x` becomes `tags=x`,
      anything else `free-text=` followed by the input; an empty input
      fails on `orig[0]`. */
  function RemovalTerm(orig: string): Result<string>
  {
    if orig == [] then Err(IndexError)
    else if orig[0] == '$' then Ok("tags=" + orig[1..])
    else Ok("free-text=" + orig)
  }

  /** The query a non-empty removal search runs. */
  function RemovalQuery(orig: string): Query
    requires orig != []
  {
    if orig[0] == '$' then TagQuery(Split(orig[1..], ',')) else TextQuery(orig)
  }

  /** The checkbox named `key` was ticked: `form.get(key) == "on"`. */
  predicate Checked(form: map<string, string>, key: string)
  {
    key in form && form[key] == "on"
  }

  /** The submitted keys whose checkbox is ticked, in submission order. */
  function CheckedKeys(keys: seq<string>, form: map<string, string>): seq<string>
    decreases |keys|
  {
    if keys == [] then []
    else
      var last := keys[|keys| - 1];
      CheckedKeys(keys[..|keys| - 1], form) + (if Checked(form, last) then [last] else [])
  }

  /** The rows whose key is not in `gone`, in table order. */
  function Without(rows: seq<Row>, gone: set<string>): seq<Row>
    decreases |rows|
  {
    if rows == [] then []
    else (if rows[0].base64 in gone then [] else [rows[0]]) + Without(rows[1..], gone)
  }

  /** The removal loop reaches a ticked key that selects no row: either no
      row ever had it, or an earlier occurrence of the same key already
      deleted its rows. `format_data(...)[0]` then raises. */
  predicate RemovalFails(rows: seq<Row>, keys: seq<string>, form: map<string, string>)
  {
    FailsBefore(rows, keys, form, |keys|)
  }

  /** The keys whose checkbox is ticked, as a set. */
  function Ticked(keys: seq<string>, form: map<string, string>): set<string>
  {
    set k | k in keys && Checked(form, k)
  }

  /** The shown name of the first row carrying `key`. */
  function NameForKey(rows: seq<Row>, key: string): string
  {
    var m := Select(rows, Base64Column, key);
    if m == [] then "" else DisplayName(m[0].name)
  }

  function DeletedNames(rows: seq<Row>, keys: seq<string>): seq<string>
  {
    seq(|keys|, i requires 0 <= i < |keys| => NameForKey(rows, keys[i]))
  }

  // =====================================================================
  // format_data and the redaction loop

  /** `format_data`: one record per row, under keys 0..n-1 in scan order. */
  method FormatData(rows: seq<Row>) returns (data: map<int, Record>)
    ensures Keyed(data, Projected(rows))
  {
    data := map[];
    var length := 0;
    for n := 0 to |rows|
      invariant length == n
      invariant Keyed(data, Projected(rows)[..n])
    {
      data := data[length := ProjectRow(rows[n])];
      length := length + 1;
    }
    assert Projected(rows)[..|rows|] == Projected(rows);
  }

  /** The `for each in data: del ...` loop of the listing and the search. */
  method RedactEach(data: map<int, Record>, ghost recs: seq<Record>, internal: bool)
    returns (out: map<int, Record>)
    requires Keyed(data, recs)
    ensures Keyed(out, Redacted(recs, internal))
  {
    out := data;
    var each := 0;
    while each in data
      invariant 0 <= each <= |recs|
      invariant forall k :: k in out <==> 0 <= k < |recs|
      invariant forall k :: 0 <= k < each ==> out[k] == Redact(recs[k], internal)
      invariant forall k :: each <= k < |recs| ==> out[k] == recs[k]
      decreases |recs| - each
    {
      out := out[each := Redact(out[each], internal)];
      each := each + 1;
    }
  }

  /** `format_data(<rows where c = v>)[0]`: the first matching row as a
      record, or the `KeyError` of indexing an empty dict. */
  method FormatFirst(rows: seq<Row>, c: Column, v: string) returns (r: Result<Record>)
    ensures r.Err? <==> FirstWith(rows, c, v).None?
    ensures r.Err? ==> r.error == KeyError
    ensures r.Ok? ==> r.value == ProjectRow(rows[FirstWith(rows, c, v).value])
  {
    var data := FormatData(Select(rows, c, v));
    FirstOfSelection(rows, c, v, data);
    if 0 !in data {
      return Err(KeyError);
    }
    r := Ok(data[0]);
  }

  // =====================================================================
  // The table and the routes that use it

  class GameTable {
    var games: seq<Row>

    constructor (rows: seq<Row>)
      ensures games == rows
    {
      games := rows;
    }

    /** `/games`: every game, redacted for the public, under keys 0..n-1. */
    method GameFrontPage() returns (r: map<int, Record>)
      ensures Keyed(r, Redacted(Projected(games), false))
    {
      var data := FormatData(games);
      if data == map[] {
        assert 0 !in data;
        return map[];
      }
      r := RedactEach(data, Projected(games), false);
    }

    /** `/games/<name>`: the first game with that name, redacted, or `{}`. */
    method ViewGame(name: string) returns (r: Option<Record>)
      ensures r.None? <==> forall i :: 0 <= i < |games| ==> games[i].name != name
      ensures r.Some? ==>
        exists i :: IsFirst(games, NameColumn, name, i) && r.value == Redact(ProjectRow(games[i]), false)
    {
      var matching := Select(games, NameColumn, name);
      var data := FormatData(matching);
      KeyedEmpty(data, Projected(matching));
      if data == map[] {
        return None;
      }
      r := Some(Redact(data[0], false));
    }

    /** `/games/<name>/download`: read the first game with that name, write
        its download count plus one into every row sharing its encoded key,
        and return its URL and package-manager flag. With no such game,
        `return_data[0]` raises before anything is written. */
    method DownloadGame(name: string) returns (r: Result<Download>)
      modifies this
      ensures FirstWith(old(games), NameColumn, name).None? ==> r == Err(KeyError) && games == old(games)
      ensures FirstWith(old(games), NameColumn, name).Some? ==>
        var row := old(games)[FirstWith(old(games), NameColumn, name).value];
        r == Ok(Download(row.url, row.inPackMan)) &&
        games == SetDownloads(old(games), row.base64, row.downloads + 1)
    {
      var returnData := FormatFirst(games, NameColumn, name);
      if returnData.Err? {
        return Err(KeyError);
      }
      var first := returnData.value;
      games := SetDownloads(games, first.base64.value, first.downloads + 1);
      r := Ok(Download(first.url.value, first.inPackMan.value));
    }

    /** `/search/<term>`: the games matching the term in catalog order, each
        once, redacted (keeping the encoded key for an internal caller). A
        term with neither prefix reaches the redaction loop with
        `return_data` unbound. */
    method Search(term: string, internal: bool) returns (r: Result<map<int, Record>>)
      ensures Parse(term).Unrecognized? ==> r == Err(UnboundLocalError)
      ensures !Parse(term).Unrecognized? ==>
        r.Ok? && Keyed(r.value, Redacted(Hits(Projected(games), Parse(term)), internal))
    {
      var returnData: map<int, Record>;
      if Prefix(term, 4) == "tags" {
        var tags := Split(Suffix(term, 5), ',');
        var data := FormatData(games);
        returnData := TagHitsOf(data, Projected(games), tags);
      } else if Prefix(term, 9) == "free-text" {
        var text := Suffix(term, 10);
        var data := FormatData(games);
        returnData := TextHitsOf(data, Projected(games), text);
      } else {
        return Err(UnboundLocalError);
      }
      var out := RedactEach(returnData, Hits(Projected(games), Parse(term)), internal);
      r := Ok(out);
    }

    /** `/tags`: the genres, ratings and platforms of the public listing,
        each without repeats, in order of first appearance. */
    method GetTags() returns (out: TagLists)
      ensures var shown := Redacted(Projected(games), false);
        out == TagLists(Dedup(AllGenres(shown)), Dedup(Ratings(shown)), Dedup(Platforms(shown)))
    {
      var page := GameFrontPage();
      out := CollectTags(page, Redacted(Projected(games), false));
    }

    /** `add_game`: append the new row; the page then shows the stored name
        with underscores turned back into spaces. The encoded URL and the
        clock reading arrive as parameters. */
    method AddGame(form: GameForm, encodedUrl: string, now: int) returns (shown: string)
      modifies this
      ensures games == old(games) + [NewRow(form, encodedUrl, now)]
      ensures shown == DisplayName(StoredName(form.name))
    {
      var name := StoredName(form.name);
      games := games + [NewRow(form, encodedUrl, now)];
      shown := DisplayName(name);
    }

    /** `get_games_rg`: rewrite the admin's search input into a term, run the
        internal search, and list one checkbox per hit (its encoded key and
        shown name) and the hidden comma-joined key list. */
    method RemovalCandidates(orig: string) returns (r: Result<RemovalPage>)
      ensures orig == [] ==> r == Err(IndexError)
      ensures orig != [] ==> r.Ok?
      ensures orig != [] && r.Ok? ==>
        var hits := Hits(Projected(games), RemovalQuery(orig));
        |r.value.boxes| == |hits| &&
        (forall i :: 0 <= i < |hits| ==>
          hits[i].base64 == Some(r.value.boxes[i].key) &&
          r.value.boxes[i].caption == DisplayName(hits[i].name)) &&
        r.value.hiddenKeys == Join(KeysOf(r.value.boxes), ',')
    {
      var rewritten := RemovalTerm(orig);
      if rewritten.Err? {
        return Err(rewritten.error);
      }
      var term := rewritten.value;
      RemovalTermParses(orig);
      HitsWithin(Projected(games), RemovalQuery(orig));
      var searched := Search(term, true);
      var page := Checkboxes(searched.value, Hits(Projected(games), RemovalQuery(orig)));
      r := Ok(page);
    }

    /** `remove_games`: for each submitted key whose checkbox is ticked, note
        the shown name of its first row and delete every row with that key;
        unticked keys are left alone. The deletions are committed only after
        the loop, so a ticked key that selects no row fails the request and
        leaves the table as it was. */
    method RemoveGames(keys: seq<string>, form: map<string, string>) returns (r: Result<seq<string>>)
      modifies this
      ensures RemovalFails(old(games), keys, form) ==> r == Err(KeyError) && games == old(games)
      ensures !RemovalFails(old(games), keys, form) ==>
        r == Ok(DeletedNames(old(games), CheckedKeys(keys, form))) &&
        games == Without(old(games), Ticked(keys, form))
    {
      var outcome := DeleteTicked(games, keys, form);
      if outcome.Err? {
        return Err(outcome.error);
      }
      games := outcome.value.remaining;
      r := Ok(outcome.value.deleted);
    }
  }

  /** The rows left and the shown names of the deleted games. */
  datatype Removal = Removal(remaining: seq<Row>, deleted: seq<string>)

  /** The loop of `remove_games` on the connection's uncommitted view of the
      table: each ticked key's first row is read through `format_data(...)[0]`
      and then every row with that key is deleted. */
  method DeleteTicked(rows: seq<Row>, keys: seq<string>, form: map<string, string>) returns (r: Result<Removal>)
    ensures r.Err? <==> RemovalFails(rows, keys, form)
    ensures r.Err? ==> r.error == KeyError
    ensures r.Ok? ==> r.value == Removal(Without(rows, Ticked(keys, form)), DeletedNames(rows, CheckedKeys(keys, form)))
  {
    var cur := Removal(rows, []);
    WithoutNothing(rows);
    assert Ticked(keys[..0], form) == {};
    for i := 0 to |keys|
      invariant cur == Removal(Without(rows, Ticked(keys[..i], form)), DeletedNames(rows, CheckedKeys(keys[..i], form)))
      invariant !FailsBefore(rows, keys, form, i)
    {
      var step := DeleteStep(rows, keys, form, i, cur);
      if step.Err? {
        FailsLater(rows, keys, form, i + 1);
        return Err(KeyError);
      }
      cur := step.value;
    }
    assert keys[..|keys|] == keys;
    r := Ok(cur);
  }

  /** One pass of the removal loop, for `keys[i]`, on the table and report
      the earlier keys left: an unticked key changes nothing; a ticked key
      is looked up through `format_data(...)[0]`, which raises when no
      remaining row has it, and otherwise its first row's shown name is
      reported and its rows are deleted. */
  method DeleteStep(rows: seq<Row>, keys: seq<string>, form: map<string, string>, i: int, cur: Removal)
    returns (r: Result<Removal>)
    requires 0 <= i < |keys| && !FailsBefore(rows, keys, form, i)
    requires cur == Removal(Without(rows, Ticked(keys[..i], form)), DeletedNames(rows, CheckedKeys(keys[..i], form)))
    ensures r.Err? <==> FailsBefore(rows, keys, form, i + 1)
    ensures r.Err? ==> r.error == KeyError
    ensures r.Ok? ==>
      r.value == Removal(Without(rows, Ticked(keys[..i + 1], form)), DeletedNames(rows, CheckedKeys(keys[..i + 1], form)))
  {
    var each := keys[i];
    if !Checked(form, each) {
      UntickedKeyStep(rows, keys, form, i);
      return Ok(cur);
    }
    TickedKeyStep(rows, keys, form, i);
    var data := FormatFirst(cur.remaining, Base64Column, each);
    if data.Err? {
      return Err(KeyError);
    }
    TickedKeyName(rows, keys, form, i);
    TickedStep(keys, form, i);
    WithoutTwice(rows, Ticked(keys[..i], form), each);
    r := Ok(Removal(Without(cur.remaining, {each}), cur.deleted + [DisplayName(data.value.name)]));
  }

  /** The tag branch of `search`: a game is kept, once, as soon as one of
      the tags hits it. */
  method TagHitsOf(data: map<int, Record>, ghost recs: seq<Record>, tags: seq<string>)
    returns (returnData: map<int, Record>)
    requires Keyed(data, recs)
    ensures Keyed(returnData, Hits(recs, TagQuery(tags)))
  {
    ghost var q := TagQuery(tags);
    returnData := map[];
    var length := 0;
    var g := 0;
    while g in data
      invariant 0 <= g <= |recs|
      invariant length == |Hits(recs[..g], q)|
      invariant Keyed(returnData, Hits(recs[..g], q))
      decreases |recs| - g
    {
      var game := data[g];
      assert recs[..g + 1][..g] == recs[..g] && recs[..g + 1][g] == game;
      ghost var before := returnData;
      KeyedAppend(returnData, Hits(recs[..g], q), game);
      var t := 0;
      while t < |tags|
        invariant 0 <= t <= |tags|
        invariant returnData == before && length == |Hits(recs[..g], q)|
        invariant forall u :: 0 <= u < t ==>
          !TagMatchesOne(tags[u], game.genres, game.rating, game.platform)
      {
        if TagMatchesOne(tags[t], game.genres, game.rating, game.platform) {
          returnData := returnData[length := game];
          length := length + 1;
          break;
        }
        t := t + 1;
      }
      g := g + 1;
    }
    assert recs[..|recs|] == recs;
  }

  /** The free-text branch of `search`: a game is kept when the text occurs,
      ignoring case, in its name or its description. */
  method TextHitsOf(data: map<int, Record>, ghost recs: seq<Record>, text: string)
    returns (returnData: map<int, Record>)
    requires Keyed(data, recs)
    ensures Keyed(returnData, Hits(recs, TextQuery(text)))
  {
    ghost var q := TextQuery(text);
    returnData := map[];
    var length := 0;
    var g := 0;
    while g in data
      invariant 0 <= g <= |recs|
      invariant length == |Hits(recs[..g], q)|
      invariant Keyed(returnData, Hits(recs[..g], q))
      decreases |recs| - g
    {
      var game := data[g];
      assert recs[..g + 1][..g] == recs[..g] && recs[..g + 1][g] == game;
      KeyedAppend(returnData, Hits(recs[..g], q), game);
      if Contains(Lower(game.name), Lower(text)) || Contains(Lower(game.description), Lower(text)) {
        returnData := returnData[length := game];
        length := length + 1;
      }
      g := g + 1;
    }
    assert recs[..|recs|] == recs;
  }

  /** The three facet lists of a listing: its genres, ratings and
      platforms, each without repeats, in order of first appearance. */
  function Facets(shown: seq<Record>): TagLists
  {
    TagLists(Dedup(AllGenres(shown)), Dedup(Ratings(shown)), Dedup(Platforms(shown)))
  }

  /** The loop of `get_tags` over the listing: each genre, rating and
      platform is appended unless already present. */
  method CollectTags(page: map<int, Record>, ghost shown: seq<Record>) returns (out: TagLists)
    requires Keyed(page, shown)
    ensures out == Facets(shown)
  {
    out := TagLists([], [], []);
    var each := 0;
    while each in page
      invariant 0 <= each <= |shown|
      invariant out == Facets(shown[..each])
      decreases |shown| - each
    {
      var game := page[each];
      assert shown[..each + 1] == shown[..each] + [game];
      out := AddFacets(out, shown[..each], game);
      each := each + 1;
    }
    assert shown[..|shown|] == shown;
  }

  /** One pass of the `get_tags` loop: the game's genres, then its rating,
      then its platform, each appended unless already present. */
  method AddFacets(out: TagLists, ghost before: seq<Record>, game: Record) returns (r: TagLists)
    requires out == Facets(before)
    ensures r == Facets(before + [game])
  {
    var genres := AppendNew(out.genres, AllGenres(before), game.genres);
    var ratings := out.ratings;
    if game.rating !in ratings {
      ratings := ratings + [game.rating];
    }
    var platforms := out.platforms;
    if game.platform !in platforms {
      platforms := platforms + [game.platform];
    }
    FacetStep(before, game);
    r := TagLists(genres, ratings, platforms);
  }

  /** `for x in items: if x not in out: out.append(x)`, where `out` already
      holds the distinct elements of `before`. */
  method AppendNew(out: seq<string>, ghost before: seq<string>, items: seq<string>) returns (r: seq<string>)
    requires out == Dedup(before)
    ensures r == Dedup(before + items)
  {
    r := out;
    assert before + items[..0] == before;
    for k := 0 to |items|
      invariant r == Dedup(before + items[..k])
    {
      AppendNewStep(before, items, k);
      if items[k] !in r {
        r := r + [items[k]];
      }
    }
    assert items[..|items|] == items;
  }

  /** One item of the inner loop: the de-duplicated list grows by the item
      exactly when it is new. */
  lemma AppendNewStep(before: seq<string>, items: seq<string>, k: int)
    requires 0 <= k < |items|
    ensures Dedup(before + items[..k + 1]) == AppendIfAbsent(Dedup(before + items[..k]), items[k])
  {
    assert before + items[..k + 1] == (before + items[..k]) + [items[k]];
    DedupSnoc(before + items[..k], items[k]);
  }

  /** One more listed game extends each facet by its own tags. */
  lemma FacetStep(before: seq<Record>, game: Record)
    ensures AllGenres(before + [game]) == AllGenres(before) + game.genres
    ensures Dedup(Ratings(before + [game])) == AppendIfAbsent(Dedup(Ratings(before)), game.rating)
    ensures Dedup(Platforms(before + [game])) == AppendIfAbsent(Dedup(Platforms(before)), game.platform)
  {
    assert (before + [game])[..|before|] == before;
    DedupSnoc(Ratings(before), game.rating);
    DedupSnoc(Platforms(before), game.platform);
  }

  /** The submitted key of every checkbox, in page order. */
  function KeysOf(boxes: seq<Checkbox>): seq<string>
  {
    seq(|boxes|, i requires 0 <= i < |boxes| => boxes[i].key)
  }

  /** The loop of `get_games_rg` over the internal search results: one
      checkbox per result, in result order, and the hidden key list. */
  method Checkboxes(results: map<int, Record>, ghost hits: seq<Record>) returns (page: RemovalPage)
    requires forall x :: x in hits ==> Stored(x)
    requires Keyed(results, Redacted(hits, true))
    ensures |page.boxes| == |hits|
    ensures forall i :: 0 <= i < |hits| ==>
      hits[i].base64 == Some(page.boxes[i].key) && page.boxes[i].caption == DisplayName(hits[i].name)
    ensures page.hiddenKeys == Join(KeysOf(page.boxes), ',')
  {
    ghost var shown := Redacted(hits, true);
    var boxes: seq<Checkbox> := [];
    var keys: seq<string> := [];
    var each := 0;
    while each in results
      invariant 0 <= each <= |hits|
      invariant |boxes| == |keys| == each
      invariant forall i :: 0 <= i < each ==>
        hits[i].base64 == Some(boxes[i].key) && boxes[i].caption == DisplayName(hits[i].name) &&
        keys[i] == boxes[i].key
      decreases |hits| - each
    {
      var rec := results[each];
      assert rec == shown[each] && Stored(hits[each]);
      boxes := boxes + [Checkbox(rec.base64.value, DisplayName(rec.name))];
      keys := keys + [rec.base64.value];
      each := each + 1;
    }
    assert keys == KeysOf(boxes);
    page := RemovalPage(boxes, Join(keys, ','));
  }

  /** The ticked key at position `i` selects no row, or repeats an earlier key. */
  predicate FailsAt(rows: seq<Row>, keys: seq<string>, form: map<string, string>, i: int)
    requires 0 <= i < |keys|
  {
    Checked(form, keys[i]) && (Select(rows, Base64Column, keys[i]) == [] || keys[i] in keys[..i])
  }

  /** The removal loop fails at some position before `n`. */
  predicate FailsBefore(rows: seq<Row>, keys: seq<string>, form: map<string, string>, n: int)
    requires 0 <= n <= |keys|
  {
    exists i :: 0 <= i < n && FailsAt(rows, keys, form, i)
  }

  // =====================================================================
  // Facts the routes rely on

  /** A dict keyed by a sequence is empty exactly when the sequence is, and
      otherwise holds its first element under key 0. */
  lemma KeyedEmpty(m: map<int, Record>, s: seq<Record>)
    requires Keyed(m, s)
    ensures m == map[] <==> s == []
    ensures s != [] ==> 0 in m && m[0] == s[0]
  {
    if s != [] {
      assert 0 in m;
    } else {
      assert forall k :: k !in m;
      assert m == map[];
    }
  }

  /** Storing the next element under the next key extends the keyed sequence. */
  lemma KeyedAppend(m: map<int, Record>, s: seq<Record>, x: Record)
    requires Keyed(m, s)
    ensures Keyed(m[|s| := x], s + [x])
  {
  }

  /** A selection is empty exactly when there is no first match, and
      otherwise starts with the first matching row. */
  lemma FirstSelected(rows: seq<Row>, c: Column, v: string)
    ensures Select(rows, c, v) == [] <==> FirstWith(rows, c, v).None?
    ensures FirstWith(rows, c, v).Some? ==> Select(rows, c, v)[0] == rows[FirstWith(rows, c, v).value]
  {
    var f := FirstWith(rows, c, v);
    if f.Some? {
      var i := f.value;
      assert rows[i] in Select(rows, c, v);
      var j :| IsFirst(rows, c, v, j) && Select(rows, c, v)[0] == rows[j];
      assert j == i;
    }
  }

  /** What `format_data(...)[0]` finds after a lookup: nothing when no row
      matches, and otherwise the projection of the first matching row. */
  lemma FirstOfSelection(rows: seq<Row>, c: Column, v: string, data: map<int, Record>)
    requires Keyed(data, Projected(Select(rows, c, v)))
    ensures 0 !in data <==> FirstWith(rows, c, v).None?
    ensures 0 in data ==> data[0] == ProjectRow(rows[FirstWith(rows, c, v).value])
  {
    KeyedEmpty(data, Projected(Select(rows, c, v)));
    FirstSelected(rows, c, v);
  }

  /** One more key either keeps the removal loop going or makes it fail:
      it fails there when the key is ticked and either selects no row or
      was already submitted earlier. */
  lemma FailsStep(rows: seq<Row>, keys: seq<string>, form: map<string, string>, i: int)
    requires 0 <= i < |keys|
    ensures FailsBefore(rows, keys, form, i + 1) <==> FailsBefore(rows, keys, form, i) || FailsAt(rows, keys, form, i)
  {
    if FailsBefore(rows, keys, form, i + 1) && !FailsAt(rows, keys, form, i) {
      var j :| 0 <= j < i + 1 && FailsAt(rows, keys, form, j);
      assert j < i;
    }
  }

  lemma TickedStep(keys: seq<string>, form: map<string, string>, i: int)
    requires 0 <= i < |keys|
    ensures Ticked(keys[..i + 1], form) ==
      Ticked(keys[..i], form) + (if Checked(form, keys[i]) then {keys[i]} else {})
  {
    assert keys[..i + 1] == keys[..i] + [keys[i]];
  }

  /** One ticked key of the removal loop, on the table left by the keys
      before it: the loop fails here exactly when no remaining row has the
      key. */
  lemma TickedKeyStep(rows: seq<Row>, keys: seq<string>, form: map<string, string>, i: int)
    requires 0 <= i < |keys| && Checked(form, keys[i]) && !FailsBefore(rows, keys, form, i)
    ensures FailsBefore(rows, keys, form, i + 1) <==>
      FirstWith(Without(rows, Ticked(keys[..i], form)), Base64Column, keys[i]).None?
  {
    var gone := Ticked(keys[..i], form);
    FailsStep(rows, keys, form, i);
    SelectWithout(rows, gone, keys[i]);
    FirstSelected(Without(rows, gone), Base64Column, keys[i]);
    assert keys[i] in gone <==> keys[i] in keys[..i];
  }

  /** When a ticked key finds a remaining row, that row's shown name extends the report. */
  lemma TickedKeyName(rows: seq<Row>, keys: seq<string>, form: map<string, string>, i: int)
    requires 0 <= i < |keys| && Checked(form, keys[i])
    requires FirstWith(Without(rows, Ticked(keys[..i], form)), Base64Column, keys[i]).Some?
    ensures var working := Without(rows, Ticked(keys[..i], form));
      DeletedNames(rows, CheckedKeys(keys[..i], form)) +
        [DisplayName(working[FirstWith(working, Base64Column, keys[i]).value].name)] ==
      DeletedNames(rows, CheckedKeys(keys[..i + 1], form))
  {
    var gone := Ticked(keys[..i], form);
    var working := Without(rows, gone);
    var key := keys[i];
    FirstRemaining(rows, gone, key);
    var prefix := keys[..i + 1];
    assert prefix[..|prefix| - 1] == keys[..i] && prefix[|prefix| - 1] == key;
    RemovedOne(rows, prefix, form, DeletedNames(rows, CheckedKeys(keys[..i], form)),
               DisplayName(working[FirstWith(working, Base64Column, key).value].name));
  }

  /** The first remaining row with a key is the first row of the whole table with it. */
  lemma FirstRemaining(rows: seq<Row>, gone: set<string>, key: string)
    requires FirstWith(Without(rows, gone), Base64Column, key).Some?
    ensures Select(rows, Base64Column, key) != []
    ensures Select(rows, Base64Column, key)[0] ==
      Without(rows, gone)[FirstWith(Without(rows, gone), Base64Column, key).value]
  {
    FirstSelected(Without(rows, gone), Base64Column, key);
    SelectWithout(rows, gone, key);
  }

  /** A removal loop that has failed by position `n` has failed by the end. */
  lemma FailsLater(rows: seq<Row>, keys: seq<string>, form: map<string, string>, n: int)
    requires 0 <= n <= |keys| && FailsBefore(rows, keys, form, n)
    ensures RemovalFails(rows, keys, form)
  {
    var i :| 0 <= i < n && FailsAt(rows, keys, form, i);
    assert 0 <= i < |keys|;
  }

  /** An unticked key changes neither the outcome, the key set nor the report. */
  lemma UntickedKeyStep(rows: seq<Row>, keys: seq<string>, form: map<string, string>, i: int)
    requires 0 <= i < |keys| && !Checked(form, keys[i])
    ensures FailsBefore(rows, keys, form, i + 1) <==> FailsBefore(rows, keys, form, i)
    ensures Ticked(keys[..i + 1], form) == Ticked(keys[..i], form)
    ensures CheckedKeys(keys[..i + 1], form) == CheckedKeys(keys[..i], form)
  {
    FailsStep(rows, keys, form, i);
    TickedStep(keys, form, i);
    assert keys[..i + 1] == keys[..i] + [keys[i]];
  }

  /** Deleting a ticked key with a row adds that row's shown name to the report. */
  lemma RemovedOne(rows: seq<Row>, keys: seq<string>, form: map<string, string>,
                   before: seq<string>, name: string)
    requires keys != [] && Checked(form, keys[|keys| - 1])
    requires before == DeletedNames(rows, CheckedKeys(keys[..|keys| - 1], form))
    requires Select(rows, Base64Column, keys[|keys| - 1]) != []
    requires name == DisplayName(Select(rows, Base64Column, keys[|keys| - 1])[0].name)
    ensures before + [name] == DeletedNames(rows, CheckedKeys(keys, form))
  {
    var names := CheckedKeys(keys[..|keys| - 1], form);
    assert CheckedKeys(keys, form) == names + [keys[|keys| - 1]];
    DeletedNamesSnoc(rows, names, keys[|keys| - 1]);
  }

  /** Reporting one more key appends that key's name. */
  lemma DeletedNamesSnoc(rows: seq<Row>, ks: seq<string>, k: string)
    ensures DeletedNames(rows, ks + [k]) == DeletedNames(rows, ks) + [NameForKey(rows, k)]
  {
  }

  /** Deleting no key leaves the table alone. */
  lemma {:induction false} WithoutNothing(rows: seq<Row>)
    ensures Without(rows, {}) == rows
    decreases |rows|
  {
    if rows != [] {
      WithoutNothing(rows[1..]);
      assert [rows[0]] + rows[1..] == rows;
    }
  }

  /** Searching what remains after deleting the keys in `gone` finds nothing
      for a deleted key and the original rows for any other. */
  lemma {:induction false} SelectWithout(rows: seq<Row>, gone: set<string>, key: string)
    ensures Select(Without(rows, gone), Base64Column, key) ==
      if key in gone then [] else Select(rows, Base64Column, key)
    decreases |rows|
  {
    if rows != [] {
      SelectWithout(rows[1..], gone, key);
      var head := if rows[0].base64 in gone then [] else [rows[0]];
      var w := head + Without(rows[1..], gone);
      assert Without(rows, gone) == w;
      if head != [] {
        assert w[1..] == Without(rows[1..], gone);
      } else {
        assert w == Without(rows[1..], gone);
      }
    }
  }

  /** Deleting one more key is deleting the enlarged key set. */
  lemma {:induction false} WithoutTwice(rows: seq<Row>, gone: set<string>, key: string)
    ensures Without(Without(rows, gone), {key}) == Without(rows, gone + {key})
    decreases |rows|
  {
    if rows != [] {
      WithoutTwice(rows[1..], gone, key);
      var head := if rows[0].base64 in gone then [] else [rows[0]];
      var w := head + Without(rows[1..], gone);
      assert Without(rows, gone) == w;
      if head != [] {
        assert w[0] == rows[0] && w[1..] == Without(rows[1..], gone);
      } else {
        assert w == Without(rows[1..], gone);
      }
    }
  }

  /** The rewritten removal term is always a tag or free-text term, and
      reads back as exactly the query the admin typed. */
  lemma RemovalTermParses(orig: string)
    requires orig != []
    ensures RemovalTerm(orig).Ok?
    ensures Parse(RemovalTerm(orig).value) == RemovalQuery(orig)
  {
    var term := RemovalTerm(orig).value;
    if orig[0] == '$' {
      assert term[..4] == "tags";
      assert Suffix(term, 5) == orig[1..];
    } else {
      assert term[..4] == "free";
      assert term[..9] == "free-text";
      assert Suffix(term, 10) == orig;
    }
  }

  // =====================================================================
  // Properties of the catalog

  /** A record keeps the table's columns in recoverable form: joining the
      genre list gives back the genre column, and rating and platform agree
      with the stored values up to case. */
  lemma ProjectionKeepsColumns(row: Row)
    ensures Join(ProjectRow(row).genres, ',') == row.genres
    ensures Lower(ProjectRow(row).rating) == Lower(row.rating) && HasNoLowerAscii(ProjectRow(row).rating)
    ensures Lower(ProjectRow(row).platform) == Lower(row.platform) && HasNoUpperAscii(ProjectRow(row).platform)
  {
    JoinSplit(row.genres, ',');
    LowerOfUpper(row.rating);
    LowerIdempotent(row.platform);
  }

  /** Searching a concatenation searches each part, in order. */
  lemma {:induction false} HitsConcat(a: seq<Record>, b: seq<Record>, q: Query)
    ensures Hits(a + b, q) == Hits(a, q) + Hits(b, q)
    decreases |b|
  {
    if b == [] {
      assert a + b == a;
    } else {
      var b0, x := b[..|b| - 1], b[|b| - 1];
      assert (a + b)[..|a + b| - 1] == a + b0;
      HitsConcat(a, b0, q);
    }
  }

  /** Each game appears in the result as many times as it appears in the
      catalog if it matches, and not at all otherwise: the `break` adds a
      game once however many tags hit it. */
  lemma {:induction false} HitsCount(recs: seq<Record>, q: Query, x: Record)
    ensures multiset(Hits(recs, q))[x] == if Matches(x, q) then multiset(recs)[x] else 0
    decreases |recs|
  {
    if recs != [] {
      var init, last := recs[..|recs| - 1], recs[|recs| - 1];
      assert recs == init + [last];
      HitsCount(init, q, x);
    }
  }

  /** The search keeps the last record exactly when it matches. */
  lemma HitsSnoc(recs: seq<Record>, q: Query)
    requires recs != []
    ensures Hits(recs, q) == Hits(recs[..|recs| - 1], q) + if Matches(recs[|recs| - 1], q) then [recs[|recs| - 1]] else []
  {
  }

  /** The search result holds exactly the catalog records that match. */
  lemma {:induction false} HitsMembers(recs: seq<Record>, q: Query, x: Record)
    ensures x in Hits(recs, q) <==> x in recs && Matches(x, q)
    decreases |recs|
  {
    if recs != [] {
      var init, last := recs[..|recs| - 1], recs[|recs| - 1];
      assert recs == init + [last];
      HitsMembers(init, q, x);
    }
  }

  /** Every hit is a catalog record. */
  lemma HitsWithin(recs: seq<Record>, q: Query)
    ensures forall x :: x in Hits(recs, q) ==> x in recs
  {
    forall x | x in Hits(recs, q)
      ensures x in recs
    {
      HitsMembers(recs, q, x);
    }
  }

  /** Two queries that agree on every record find the same records. */
  lemma {:induction false} HitsAgree(recs: seq<Record>, q1: Query, q2: Query)
    requires forall i :: 0 <= i < |recs| ==> (Matches(recs[i], q1) <==> Matches(recs[i], q2))
    ensures Hits(recs, q1) == Hits(recs, q2)
    decreases |recs|
  {
    if recs != [] {
      HitsAgree(recs[..|recs| - 1], q1, q2);
    }
  }

  /** Free-text search ignores the case of the typed text. */
  lemma TextSearchIgnoresCase(recs: seq<Record>, text: string)
    ensures Hits(recs, TextQuery(Upper(text))) == Hits(recs, TextQuery(text))
  {
    LowerOfUpper(text);
    HitsAgree(recs, TextQuery(Upper(text)), TextQuery(text));
  }

  /** An empty free-text term lists the whole catalog: `""` is in every string. */
  lemma {:induction false} EmptyTextListsEverything(recs: seq<Record>)
    ensures Hits(recs, TextQuery("")) == recs
    decreases |recs|
  {
    if recs != [] {
      var init, last := recs[..|recs| - 1], recs[|recs| - 1];
      EmptyTextListsEverything(init);
      EmptyInEverything(Lower(last.name));
      assert Lower("") == "";
      assert recs == init + [last];
    }
  }

  /** The genre facet holds exactly the genres of the listed games. */
  lemma {:induction false} AllGenresMembers(recs: seq<Record>, g: string)
    ensures g in AllGenres(recs) <==> exists i :: 0 <= i < |recs| && g in recs[i].genres
    decreases |recs|
  {
    if recs != [] {
      var init := recs[..|recs| - 1];
      AllGenresMembers(init, g);
      assert forall i :: 0 <= i < |init| ==> init[i] == recs[i];
    }
  }

  /** The rating facet holds exactly the ratings of the listed games. */
  lemma {:induction false} RatingsMembers(recs: seq<Record>, x: string)
    ensures x in Ratings(recs) <==> exists i :: 0 <= i < |recs| && recs[i].rating == x
    decreases |recs|
  {
    if recs != [] {
      var init := recs[..|recs| - 1];
      RatingsMembers(init, x);
      assert forall i :: 0 <= i < |init| ==> init[i] == recs[i];
    }
  }

  /** The platform facet holds exactly the platforms of the listed games. */
  lemma {:induction false} PlatformsMembers(recs: seq<Record>, x: string)
    ensures x in Platforms(recs) <==> exists i :: 0 <= i < |recs| && recs[i].platform == x
    decreases |recs|
  {
    if recs != [] {
      var init := recs[..|recs| - 1];
      PlatformsMembers(init, x);
      assert forall i :: 0 <= i < |init| ==> init[i] == recs[i];
    }
  }

  /** The first match is unique. */
  lemma IsFirstUnique(rows: seq<Row>, c: Column, v: string, i: int, j: int)
    requires IsFirst(rows, c, v, i) && IsFirst(rows, c, v, j)
    ensures i == j
  {
  }

  /** A download leaves names and keys alone, so the same game is found
      again and a second download counts on from the first: two downloads
      add two. */
  lemma DownloadTwiceCountsTwo(rows: seq<Row>, name: string, i: nat)
    requires FirstWith(rows, NameColumn, name) == Some(i)
    ensures var once := SetDownloads(rows, rows[i].base64, rows[i].downloads + 1);
      FirstWith(once, NameColumn, name) == Some(i) &&
      SetDownloads(once, once[i].base64, once[i].downloads + 1)[i].downloads == rows[i].downloads + 2
  {
    var once := SetDownloads(rows, rows[i].base64, rows[i].downloads + 1);
    SetDownloadsKeepsNames(rows, rows[i].base64, rows[i].downloads + 1);
    assert IsFirst(once, NameColumn, name, i);
    var f := FirstWith(once, NameColumn, name);
    assert f.Some?;
    IsFirstUnique(once, NameColumn, name, f.value, i);
  }

  lemma SetDownloadsKeepsNames(rows: seq<Row>, key: string, v: int)
    ensures forall j :: 0 <= j < |rows| ==>
      SetDownloads(rows, key, v)[j].name == rows[j].name &&
      SetDownloads(rows, key, v)[j].base64 == rows[j].base64
  {
  }

  /** Appending a row changes the first match only when there was none. */
  lemma FirstWithAppend(rows: seq<Row>, x: Row, c: Column, v: string)
    ensures FirstWith(rows + [x], c, v) ==
      if FirstWith(rows, c, v).Some? then FirstWith(rows, c, v)
      else if Field(x, c) == v then Some(|rows|) else None
  {
    var ext := rows + [x];
    var f := FirstWith(rows, c, v);
    if f.Some? {
      assert IsFirst(ext, c, v, f.value);
      IsFirstUnique(ext, c, v, FirstWith(ext, c, v).value, f.value);
    } else if Field(x, c) == v {
      assert IsFirst(ext, c, v, |rows|);
      IsFirstUnique(ext, c, v, FirstWith(ext, c, v).value, |rows|);
    } else {
      assert forall i :: 0 <= i < |ext| ==> Field(ext[i], c) != v by {
        assert forall i :: 0 <= i < |rows| ==> ext[i] == rows[i];
      }
    }
  }

  /** A game added under a fresh name is what a lookup of that name finds. */
  lemma AddedGameIsFound(rows: seq<Row>, form: GameForm, encodedUrl: string, now: int)
    requires FirstWith(rows, NameColumn, StoredName(form.name)).None?
    ensures FirstWith(rows + [NewRow(form, encodedUrl, now)], NameColumn, StoredName(form.name)) == Some(|rows|)
  {
    FirstWithAppend(rows, NewRow(form, encodedUrl, now), NameColumn, StoredName(form.name));
  }

  /** Storing a name and showing it again gives the name back, unless it
      already contained an underscore. */
  lemma NameRoundTrip(name: string)
    requires '_' !in name
    ensures DisplayName(StoredName(name)) == name
  {
    var back := DisplayName(StoredName(name));
    forall i | 0 <= i < |name|
      ensures back[i] == name[i]
    {
      assert name[i] != '_';
    }
  }

  /** The hidden key list of the removal page, split on commas as the
      removal form handler does, gives back the checkbox keys, provided there
      is at least one and no key holds a comma (base64 text has none). */
  lemma HiddenKeysReadBack(page: RemovalPage)
    requires |page.boxes| >= 1
    requires forall i :: 0 <= i < |page.boxes| ==> ',' !in page.boxes[i].key
    requires page.hiddenKeys == Join(KeysOf(page.boxes), ',')
    ensures Split(page.hiddenKeys, ',') == KeysOf(page.boxes)
  {
    SplitJoin(KeysOf(page.boxes), ',');
  }

  /** Removal keeps exactly the rows whose key was not deleted. */
  lemma {:induction false} WithoutMembers(rows: seq<Row>, gone: set<string>, x: Row)
    ensures x in Without(rows, gone) <==> x in rows && x.base64 !in gone
    decreases |rows|
  {
    if rows != [] {
      WithoutMembers(rows[1..], gone, x);
      assert rows == [rows[0]] + rows[1..];
    }
  }
}
