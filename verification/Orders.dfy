module Orders {
  ghost predicate Rising(s: seq<nat>) { forall i, j :: 0 <= i < j < |s| ==> s[i] < s[j] }

  /** A rising list whose tail was thinned rises still, and its elements are those of head and tail. */
  lemma Headed(s: seq<nat>, t: seq<nat>)
    requires s != []
    ensures forall y :: y in s <==> y == s[0] || y in s[1..]
    ensures Rising(s) ==> Rising(s[1..])
    ensures Rising(s) && Rising(t) && (forall y :: y in t ==> y in s[1..]) ==> Rising([s[0]] + t)
  {
    assert s == [s[0]] + s[1..];
    if Rising(s) && Rising(t) && forall y :: y in t ==> y in s[1..] {
      var u := [s[0]] + t;
      forall i, j | 0 <= i < j < |u|
        ensures u[i] < u[j]
      {
        assert u[j] == t[j - 1] && t[j - 1] in s[1..];
        var k :| 0 <= k < |s[1..]| && s[1..][k] == u[j];
        assert s[k + 1] == u[j];
        if i > 0 {
          assert u[i] == t[i - 1];
        }
      }
    }
  }
}
