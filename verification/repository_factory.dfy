/**
 * Choosing a backend from a connection URL. The protocol is the text before
 * the first ':'; opening the chosen backend is not modelled, only which one
 * is chosen and with what argument.
 */
module RepositoryFactory {
  import opened Outcomes

  datatype Backend = CsvBackend(path: string) | SqliteBackend(connectionUrl: string)

  /** `stristr($url, ":", true)`: the prefix before the first ':', or nothing without a ':'. */
  function Protocol(url: string): (r: Option<string>)
    ensures r.None? <==> ':' !in url
    ensures r.Some? ==> |r.value| < |url| && url[..|r.value|] == r.value && url[|r.value|] == ':'
    ensures r.Some? ==> ':' !in r.value
  {
    if |url| == 0 then None
    else if url[0] == ':' then Some("")
    else match Protocol(url[1..])
      case None => None
      case Some(p) => Some([url[0]] + p)
  }

  /** The message of the exception; a missing protocol interpolates as the empty string. */
  function UnknownProtocolError(p: Option<string>): Error {
    UnknownProtocol("Unknown protocol " + (match p case Some(s) => s case None => ""))
  }

  /** `create`: "csv" gets the text after "csv:", "sqlite" gets the whole URL, anything else is refused. */
  function Create(url: string): (r: Result<Backend>)
    ensures r.Ok? <==> Protocol(url) == Some("csv") || Protocol(url) == Some("sqlite")
    ensures r.Err? ==> r.error == UnknownProtocolError(Protocol(url))
    ensures Protocol(url) == Some("csv") ==> r == Ok(CsvBackend(url[4..]))
    ensures Protocol(url) == Some("sqlite") ==> r == Ok(SqliteBackend(url))
  {
    match Protocol(url)
    case Some(p) =>
      if p == "csv" then Ok(CsvBackend(url[|"csv:"|..]))
      else if p == "sqlite" then Ok(SqliteBackend(url))
      else Err(UnknownProtocolError(Some(p)))
    case None => Err(UnknownProtocolError(None))
  }

  /** The protocol of "p:rest" is p whenever p holds no ':'. */
  lemma {:induction false} ProtocolOfPrefix(p: string, rest: string)
    requires ':' !in p
    ensures Protocol(p + ":" + rest) == Some(p)
    decreases |p|
  {
    var url := p + ":" + rest;
    if |p| > 0 {
      assert url[0] == p[0] && p[0] != ':';
      assert url[1..] == p[1..] + ":" + rest;
      ProtocolOfPrefix(p[1..], rest);
      assert [p[0]] + p[1..] == p;
    }
  }

  /** "csv:" + path opens the CSV backend on exactly path. */
  lemma CsvGetsPath(path: string)
    ensures Create("csv:" + path) == Ok(CsvBackend(path))
  {
    ProtocolOfPrefix("csv", path);
    assert "csv:" + path == "csv" + ":" + path;
  }

  /** "sqlite:" + rest opens the SQL backend with the whole URL unchanged. */
  lemma SqliteGetsWholeUrl(rest: string)
    ensures Create("sqlite:" + rest) == Ok(SqliteBackend("sqlite:" + rest))
  {
    ProtocolOfPrefix("sqlite", rest);
    assert "sqlite:" + rest == "sqlite" + ":" + rest;
  }

  /** A URL without ':' is refused. */
  lemma NoColonRefused(url: string)
    requires ':' !in url
    ensures Create(url) == Err(UnknownProtocol("Unknown protocol "))
  {
  }

  /** Any other protocol is refused, including the empty one and a differently cased "CSV". */
  lemma OtherProtocolRefused(p: string, rest: string)
    requires ':' !in p && p != "csv" && p != "sqlite"
    ensures Create(p + ":" + rest) == Err(UnknownProtocol("Unknown protocol " + p))
    ensures Create(":" + rest).Err? && Create("CSV:" + rest).Err?
  {
    ProtocolOfPrefix(p, rest);
    ProtocolOfPrefix("", rest);
    ProtocolOfPrefix("CSV", rest);
    assert "" + ":" + rest == ":" + rest;
    assert "CSV" + ":" + rest == "CSV:" + rest;
  }
}
