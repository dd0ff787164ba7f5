/** The search-term grammar and the match rules shared by both iterations of
    the service (store.py and app.py): a term is dispatched on its first
    characters, and a game matches a tag query or a free-text query by the
    rules below. */
module SearchTerms {
  import opened PyText

  /** What a search term asks for. */
  datatype Query =
    | TagQuery(tags: seq<string>)  // `tags=a,b,...`
    | TextQuery(text: string)      // `free-text=...`
    | Unrecognized                 // neither prefix: no result variable is ever bound

  /** The `if term[:4] == "tags" ... elif term[:9] == "free-text"` dispatch:
      the tag list is everything after the fifth character split on commas,
      the text everything after the tenth. */
  function Parse(term: string): Query
  {
    if Prefix(term, 4) == "tags" then TagQuery(Split(Suffix(term, 5), ','))
    else if Prefix(term, 9) == "free-text" then TextQuery(Suffix(term, 10))
    else Unrecognized
  }

  /** One tag hits a game when it is one of its genres, its rating or its platform. */
  predicate TagMatchesOne(tag: string, genres: seq<string>, rating: string, platform: string)
  {
    tag in genres || tag == rating || tag == platform
  }

  /** Some tag of the query hits the game. */
  predicate TagHit(tags: seq<string>, genres: seq<string>, rating: string, platform: string)
  {
    exists t :: t in tags && TagMatchesOne(t, genres, rating, platform)
  }

  /** The lower-cased text occurs in the lower-cased name or description. */
  predicate TextHit(text: string, name: string, description: string)
  {
    Contains(Lower(name), Lower(text)) || Contains(Lower(description), Lower(text))
  }
}
