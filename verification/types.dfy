/** The shared record and enumeration types of the search front end
    (types.ts): search categories, sources, results, status, grounding chunks. */
module Types {

  /** An optional value: `undefined`/`null` in the source is `None`. */
  datatype Option<T> = None | Some(value: T)

  /** The closed set of search domains the user can focus on. */
  datatype SearchCategory = General | Health | Emotion | Business | Education | Creative

  /** The string literal that names a category in the source. */
  function CategoryName(c: SearchCategory): string
  {
    match c
    case General => "General"
    case Health => "Health"
    case Emotion => "Emotion"
    case Business => "Business"
    case Education => "Education"
    case Creative => "Creative"
  }

  /** A citation; the title is optional, the URI is the identity used for deduplication. */
  datatype Source = Source(title: Option<string>, uri: string)

  /** One completed answer: the model's markdown text and its cited sources. */
  datatype SearchResult = SearchResult(markdownText: string, sources: seq<Source>)

  /** The life cycle of the single search the page holds. */
  datatype SearchStatus = Idle | Loading | Success | Error

  /** The `web` part of a grounding chunk; both fields may be missing. */
  datatype WebRef = WebRef(uri: Option<string>, title: Option<string>)

  /** A grounding chunk as the model service returns it; `web` may be missing. */
  datatype GroundingChunk = GroundingChunk(web: Option<WebRef>)
}
