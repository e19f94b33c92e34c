/** The two query forms the blog's views are built from: a filter over a
    table (`QuerySet.filter`) and the fetch of exactly one row
    (`QuerySet.get`, which `get_object_or_404` wraps). */
module Query {

  /** The ways a single-row fetch can fail. `get_object_or_404` turns
      `NotFound` into an HTTP 404; `MultipleObjectsReturned` is not caught
      and would surface as a server error. */
  datatype Error = NotFound | MultipleObjectsReturned

  datatype Result<T> = Ok(value: T) | Err(error: Error)

  /** The rows of `s` that satisfy `keep`, in table order. Each kept row
      appears exactly as often as in the table; nothing else appears. */
  function Select<T(!new)>(s: seq<T>, keep: T -> bool): (r: seq<T>)
    ensures forall x :: multiset(r)[x] == if keep(x) then multiset(s)[x] else 0
    ensures forall x :: x in r <==> x in s && keep(x)
    ensures |r| <= |s|
    decreases |s|
  {
    if s == [] then []
    else
      assert s == [s[0]] + s[1..];
      if keep(s[0]) then [s[0]] + Select(s[1..], keep) else Select(s[1..], keep)
  }

  /** `get()`: succeeds only when the filter matched exactly one row. */
  function Get<T>(matches: seq<T>): (r: Result<T>)
    ensures r.Ok? <==> |matches| == 1
    ensures r.Ok? ==> r.value == matches[0]
    ensures r == Err(NotFound) <==> matches == []
  {
    if |matches| == 0 then Err(NotFound)
    else if |matches| == 1 then Ok(matches[0])
    else Err(MultipleObjectsReturned)
  }

  /** Column `key` takes a different value on every row of `s`. */
  predicate UniqueKey<T, K(==)>(s: seq<T>, key: T -> K) {
    forall i, j :: 0 <= i < j < |s| ==> key(s[i]) != key(s[j])
  }

  /** A filter that pins a unique column to one value matches at most one
      row: this is why a lookup by primary key or by a unique column never
      raises `MultipleObjectsReturned`. */
  lemma {:induction false} AtMostOneMatch<T(!new), K>(s: seq<T>, key: T -> K, k: K, keep: T -> bool)
    requires UniqueKey(s, key)
    requires forall x :: keep(x) ==> key(x) == k
    ensures |Select(s, keep)| <= 1
    decreases |s|
  {
    if s != [] {
      var rest := Select(s[1..], keep);
      assert UniqueKey(s[1..], key) by {
        forall i, j | 0 <= i < j < |s[1..]| ensures key(s[1..][i]) != key(s[1..][j]) {
          assert s[1..][i] == s[i + 1] && s[1..][j] == s[j + 1];
        }
      }
      AtMostOneMatch(s[1..], key, k, keep);
      if keep(s[0]) {
        forall x | x in s[1..] ensures !keep(x) {
          var j :| 0 <= j < |s[1..]| && s[1..][j] == x;
          assert key(s[0]) != key(s[j + 1]);
        }
        forall x ensures multiset(rest)[x] == 0 {
          if keep(x) { assert x !in s[1..]; }
        }
        assert multiset(rest) == multiset{};
      }
    }
  }

  /** Appending a row whose key is new keeps the column unique. */
  lemma UniqueKeyAppend<T, K>(s: seq<T>, key: T -> K, x: T)
    requires UniqueKey(s, key)
    requires forall y :: y in s ==> key(y) != key(x)
    ensures UniqueKey(s + [x], key)
  {
    var t := s + [x];
    forall i, j | 0 <= i < j < |t| ensures key(t[i]) != key(t[j]) {
      assert t[i] == s[i];
      if j < |s| { assert t[j] == s[j]; } else { assert s[i] in s; }
    }
  }

  /** Filtering keeps a unique column unique. */
  lemma {:induction false} UniqueKeySelect<T(!new), K>(s: seq<T>, key: T -> K, keep: T -> bool)
    requires UniqueKey(s, key)
    ensures UniqueKey(Select(s, keep), key)
    decreases |s|
  {
    if s != [] {
      assert UniqueKey(s[1..], key) by {
        forall i, j | 0 <= i < j < |s[1..]| ensures key(s[1..][i]) != key(s[1..][j]) {
          assert s[1..][i] == s[i + 1] && s[1..][j] == s[j + 1];
        }
      }
      UniqueKeySelect(s[1..], key, keep);
      if keep(s[0]) {
        var rest := Select(s[1..], keep);
        forall y | y in rest ensures key(y) != key(s[0]) {
          var j :| 0 <= j < |s[1..]| && s[1..][j] == y;
          assert s[j + 1] == y;
        }
        UniqueKeyPrepend(rest, key, s[0]);
      }
    }
  }

  /** Putting a row whose key is new in front keeps the column unique. */
  lemma UniqueKeyPrepend<T, K>(s: seq<T>, key: T -> K, x: T)
    requires UniqueKey(s, key)
    requires forall y :: y in s ==> key(y) != key(x)
    ensures UniqueKey([x] + s, key)
  {
    var t := [x] + s;
    forall i, j | 0 <= i < j < |t| ensures key(t[i]) != key(t[j]) {
      assert t[j] == s[j - 1];
      if i > 0 { assert t[i] == s[i - 1]; } else { assert s[j - 1] in s; }
    }
  }
}
