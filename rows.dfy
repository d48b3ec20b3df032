/**
 * What the SQL statements of `server.js` do to a sequence of rows: the first row a
 * `SELECT ... WHERE` yields, `COUNT(*) ... WHERE`, `UPDATE ... WHERE`, `DELETE ... WHERE`,
 * and `ORDER BY name`.
 */
module Rows {
  import opened Schema

  /** The WHERE clauses the account queries use. */
  datatype Condition =
    | EmailIs(email: string)                        // email = :email
    | IdIs(id: int)                                 // id = :id
    | Credentials(email: string, password: string)  // email = :email AND password = :password
    | TokenLive(token: string, now: int)            // reset_token = :token AND reset_token_expires > now

  predicate Matches(c: Condition, u: Row) {
    match c
    case EmailIs(email) => u.email == email
    case IdIs(id) => u.id == id
    case Credentials(email, password) => u.email == email && u.password == password
    // a NULL token or expiry never satisfies the comparison
    case TokenLive(token, now) => u.resetToken == Some(token) && u.resetExpires.Some? && u.resetExpires.value > now
  }

  /** The SET clauses of the account updates. */
  datatype Assignment =
    | StampToken(token: string, expires: int)   // reset_token = :token, reset_token_expires = :expires
    | ResetPassword(password: string)           // password = :password, reset_token = NULL, reset_token_expires = NULL

  function Assign(a: Assignment, u: Row): Row {
    match a
    case StampToken(token, expires) => u.(resetToken := Some(token), resetExpires := Some(expires))
    case ResetPassword(password) => u.(password := password, resetToken := None, resetExpires := None)
  }

  /** The first row that satisfies `c`: the row `getAsObject` or `values[0]` returns. */
  function IndexOfFirst(s: seq<Row>, c: Condition): (r: Option<nat>)
    ensures r.Some? ==> r.value < |s| && Matches(c, s[r.value])
    ensures r.Some? ==> forall k :: 0 <= k < r.value ==> !Matches(c, s[k])
    ensures r.None? <==> forall k :: 0 <= k < |s| ==> !Matches(c, s[k])
  {
    if |s| == 0 then None
    else if Matches(c, s[0]) then Some(0)
    else match IndexOfFirst(s[1..], c)
      case None => None
      case Some(i) => Some(i + 1)
  }

  /** The search stops at the first matching row. */
  lemma FirstAt(s: seq<Row>, c: Condition, k: nat)
    requires k < |s| && Matches(c, s[k])
    requires forall j :: 0 <= j < k ==> !Matches(c, s[j])
    ensures IndexOfFirst(s, c) == Some(k)
  {
  }

  /** `SELECT COUNT(*) ... WHERE c`. */
  function CountWhere(s: seq<Row>, c: Condition): (n: nat)
    ensures n <= |s|
    ensures n == 0 <==> forall k :: 0 <= k < |s| ==> !Matches(c, s[k])
    ensures n == |s| <==> forall k :: 0 <= k < |s| ==> Matches(c, s[k])
  {
    if |s| == 0 then 0
    else (if Matches(c, s[0]) then 1 else 0) + CountWhere(s[1..], c)
  }

  /** `UPDATE ... SET a WHERE c`: every row satisfying the condition is rewritten by the assignment,
      every other row is kept, in place. */
  function UpdateWhere(s: seq<Row>, c: Condition, a: Assignment): (r: seq<Row>)
    ensures |r| == |s|
    ensures forall k :: 0 <= k < |s| && Matches(c, s[k]) ==> r[k] == Assign(a, s[k])
    ensures forall k :: 0 <= k < |s| && !Matches(c, s[k]) ==> r[k] == s[k]
  {
    seq(|s|, k requires 0 <= k < |s| => if Matches(c, s[k]) then Assign(a, s[k]) else s[k])
  }

  /** `DELETE ... WHERE c`: the rows not satisfying the condition, in their order. */
  function DeleteWhere(s: seq<Row>, c: Condition): (r: seq<Row>)
    ensures |r| + CountWhere(s, c) == |s|
    ensures forall k :: 0 <= k < |r| ==> r[k] in s && !Matches(c, r[k])
    ensures forall k :: 0 <= k < |s| && !Matches(c, s[k]) ==> s[k] in r
    ensures multiset(r) <= multiset(s)
  {
    if |s| == 0 then []
    else
      assert s == [s[0]] + s[1..];
      if Matches(c, s[0]) then DeleteWhere(s[1..], c)
      else [s[0]] + DeleteWhere(s[1..], c)
  }

  /** The engine's BINARY collation on TEXT: lexicographic order of code points,
      a proper prefix first. */
  predicate NameLe(a: string, b: string)
  {
    a == [] || (b != [] && (a[0] < b[0] || (a[0] == b[0] && NameLe(a[1..], b[1..]))))
  }

  lemma {:induction false} NameLeTotal(a: string, b: string)
    ensures NameLe(a, b) || NameLe(b, a)
  {
    if a != [] && b != [] && a[0] == b[0] {
      NameLeTotal(a[1..], b[1..]);
    }
  }

  /** Rows in ascending order of `name`. */
  predicate SortedByName(s: seq<Row>) {
    forall k :: 0 <= k < |s| - 1 ==> NameLe(s[k].name, s[k + 1].name)
  }

  function InsertByName(x: Row, s: seq<Row>): (r: seq<Row>)
    requires SortedByName(s)
    ensures SortedByName(r)
    ensures multiset(r) == multiset(s) + multiset{x}
    ensures |r| == |s| + 1 && (r[0] == x || (|s| > 0 && r[0] == s[0]))
  {
    if |s| == 0 then [x]
    else if NameLe(x.name, s[0].name) then [x] + s
    else
      NameLeTotal(x.name, s[0].name);
      var tail := InsertByName(x, s[1..]);
      assert s == [s[0]] + s[1..];
      [s[0]] + tail
  }

  /** `ORDER BY name`: the same rows, ascending by name. */
  function SortByName(s: seq<Row>): (r: seq<Row>)
    ensures SortedByName(r)
    ensures multiset(r) == multiset(s)
  {
    if |s| == 0 then []
    else
      assert s == [s[0]] + s[1..];
      InsertByName(s[0], SortByName(s[1..]))
  }
}
