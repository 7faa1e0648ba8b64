/** The nine request methods (`HttpMethod`), their numeric values, which
    index the router's table, and their names on the wire. */
module Methods {

  datatype HttpMethod = Get | Head | Post | Put | Delete | Connect | Options | Trace | Patch

  /** `kNumHttpMethods`: one more than the value of the last method. */
  const NumHttpMethods: nat := 9

  /** The enum value, `static_cast` to an index. */
  function Index(m: HttpMethod): (i: nat)
    ensures i < NumHttpMethods
  {
    match m
    case Get => 0
    case Head => 1
    case Post => 2
    case Put => 3
    case Delete => 4
    case Connect => 5
    case Options => 6
    case Trace => 7
    case Patch => 8
  }

  function FromIndex(i: nat): (m: HttpMethod)
    requires i < NumHttpMethods
    ensures Index(m) == i
  {
    [Get, Head, Post, Put, Delete, Connect, Options, Trace, Patch][i]
  }

  /** The values are a bijection between the methods and `0 .. 8`: every table
      slot belongs to exactly one method. */
  lemma IndexBijective()
    ensures forall m, m' :: Index(m) == Index(m') ==> m == m'
    ensures forall m :: FromIndex(Index(m)) == m
  {
  }

  /** The method's name as a request line spells it. */
  function Name(m: HttpMethod): (n: string)
    ensures 3 <= |n| && forall i :: 0 <= i < |n| ==> 'A' <= n[i] <= 'Z'
  {
    match m
    case Get => "GET"
    case Head => "HEAD"
    case Post => "POST"
    case Put => "PUT"
    case Delete => "DELETE"
    case Connect => "CONNECT"
    case Options => "OPTIONS"
    case Trace => "TRACE"
    case Patch => "PATCH"
  }
}
