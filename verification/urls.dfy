/**
 * The parsed URL record the scripts read from `new URL(...)`. Parsing itself
 * (the WHATWG URL parser) is not modelled: callers supply a parser as a
 * function value, and a parse failure, where the constructor throws, is `None`.
 */
module Urls {
  import opened Options

  /**
   * `hostname`, `pathname` and the `searchParams` list of a parsed URL. The
   * query pairs are already decoded by the application/x-www-form-urlencoded
   * parser (section 5.1 of the WHATWG URL Standard).
   */
  datatype Url = Url(hostname: string, pathname: string, query: seq<(string, string)>)

  /** `new URL(s)`. */
  type Parser = string -> Option<Url>

  /** The value of the first pair named `name`. */
  function Lookup(query: seq<(string, string)>, name: string): (r: Option<string>)
    ensures r.None? <==> forall i :: 0 <= i < |query| ==> query[i].0 != name
    ensures r.Some? ==> exists i :: 0 <= i < |query| && query[i] == (name, r.value)
                                   && forall j :: 0 <= j < i ==> query[j].0 != name
  {
    if |query| == 0 then None
    else if query[0].0 == name then Some(query[0].1)
    else
      var r := Lookup(query[1..], name);
      assert r.Some? ==> exists i :: 0 <= i < |query[1..]| && query[1..][i] == (name, r.value)
                                   && forall j :: 0 <= j < i ==> query[1..][j].0 != name;
      if r.Some? then
        var i :| 0 <= i < |query[1..]| && query[1..][i] == (name, r.value)
                 && forall j :: 0 <= j < i ==> query[1..][j].0 != name;
        assert query[i + 1] == (name, r.value);
        assert forall j :: 0 <= j < i + 1 ==> query[j].0 != name by {
          forall j | 0 <= j < i + 1 ensures query[j].0 != name {
            if j > 0 {
              assert query[j] == query[1..][j - 1];
            }
          }
        }
        r
      else r
  }

  /** `u.searchParams.get(name)`. */
  function Get(u: Url, name: string): Option<string> {
    Lookup(u.query, name)
  }

  /** JavaScript truthiness of a string-or-null: present and non-empty. */
  predicate Truthy(o: Option<string>) {
    o.Some? && o.value != ""
  }

  /** `a || b` on strings-or-null. */
  function Or(a: Option<string>, b: Option<string>): (r: Option<string>)
    ensures Truthy(r) <==> Truthy(a) || Truthy(b)
    ensures Truthy(a) ==> r == a
  {
    if Truthy(a) then a else b
  }
}
