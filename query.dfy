/** Reading the query string of a page: `URLSearchParams.get` and the
    `get(key) || fallback` idiom the pages use for defaults. The query is the
    already-decoded parameter map; percent-decoding is not modelled. */
module Query {
  import opened Options

  /** `searchParams.get(key)`: the value, or `null` when the key is absent. */
  function Get(q: map<string, string>, key: string): Option<string>
  {
    if key in q then Some(q[key]) else None
  }

  /** `searchParams.get(key) || fallback`: JavaScript's `||` replaces both a
      missing parameter and an empty one by the fallback. */
  function Param(q: map<string, string>, key: string, fallback: string): (v: string)
    ensures key !in q || q[key] == "" ==> v == fallback
    ensures key in q && q[key] != "" ==> v == q[key]
  {
    match Get(q, key)
    case Some(s) => if s != "" then s else fallback
    case None => fallback
  }
}
