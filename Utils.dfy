/** Small helpers (`lib/utils.ts`). The URL parser is not modelled: it is
    a parameter giving the parsed protocol, or `None` when parsing
    fails. */
module Utils {
  import opened Text

  /** `isSafeUrl`: `null`, `undefined` and `""` are unsafe; otherwise the
      URL is safe exactly when it parses with protocol `http:` or
      `https:`. */
  function IsSafeUrl(url: Option<string>, protocolOf: string -> Option<string>): (r: bool)
    ensures r <==> url.Some? && url.value != "" && protocolOf(url.value).Some?
                   && protocolOf(url.value).value in {"https:", "http:"}
  {
    if url.None? || url.value == "" then false
    else match protocolOf(url.value)
      case None => false
      case Some(protocol) => protocol == "https:" || protocol == "http:"
  }

  /** A parser that reports any other protocol makes the URL unsafe:
      `javascript:`, `data:` and `file:` links are refused. */
  lemma OtherProtocolsUnsafe(url: string, protocolOf: string -> Option<string>)
    requires protocolOf(url) in {Some("javascript:"), Some("data:"), Some("file:"), None}
    ensures !IsSafeUrl(Some(url), protocolOf)
  {
  }

  /** `levelName`: the name of a level of the topic hierarchy. */
  function LevelName(level: int): (r: string)
    ensures r != ""
    ensures level == 0 ==> r == "Domain"
    ensures level == 1 ==> r == "Field"
    ensures level == 2 ==> r == "Subfield"
    ensures r == "Topic" <==> (level < 0 || level >= 3)
  {
    match level
    case 0 => "Domain"
    case 1 => "Field"
    case 2 => "Subfield"
    case 3 => "Topic"
    case _ => "Topic"
  }
}
