module Lists {
  /** No element occurs twice. */
  predicate Distinct<T(==)>(q: seq<T>) { forall i, j :: 0 <= i < j < |q| ==> q[i] != q[j] }

  function Init<T>(q: seq<T>): seq<T>
    requires q != []
  {
    q[..|q| - 1]
  }

  function Last<T>(q: seq<T>): T
    requires q != []
  {
    q[|q| - 1]
  }

  /** q without its element i. */
  function Removed<T>(q: seq<T>, i: nat): (r: seq<T>)
    requires i < |q|
    ensures |r| == |q| - 1 && forall j :: 0 <= j < |r| ==> r[j] == q[if j < i then j else j + 1]
  {
    q[..i] + q[i + 1..]
  }

  /** How many elements are of a kind. */
  function Count<T>(q: seq<T>, kind: T -> bool): nat {
    if q == [] then 0 else Count(Init(q), kind) + if kind(Last(q)) then 1 else 0
  }

  /** The numbers below n with a property. */
  ghost function Where(n: nat, p: int -> bool): set<int> { set j | 0 <= j < n && p(j) }

  lemma WhereNext(n: nat, p: int -> bool)
    ensures |Where(n + 1, p)| == |Where(n, p)| + if p(n) then 1 else 0
  {
    assert Where(n + 1, p) == Where(n, p) + if p(n) then {n as int} else {};
  }

  lemma WhereSame(n: nat, p: int -> bool, q: int -> bool)
    requires forall j :: 0 <= j < n ==> p(j) == q(j)
    ensures Where(n, p) == Where(n, q)
  {
  }
}
