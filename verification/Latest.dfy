/** The last element of a kind: what every fold in log order keeps. */
module Latest {

  ghost predicate AnyOf<T>(s: seq<T>, p: T -> bool) {
    exists i :: 0 <= i < |s| && p(s[i])
  }

  ghost predicate LastOf<T>(s: seq<T>, p: T -> bool, i: int) {
    0 <= i < |s| && p(s[i]) && forall m :: i < m < |s| ==> !p(s[m])
  }

  lemma OneMore<T>(s: seq<T>, p: T -> bool)
    requires s != []
    ensures var n := |s| - 1;
            && (AnyOf(s, p) <==> p(s[n]) || AnyOf(s[..n], p))
            && (p(s[n]) ==> forall i :: LastOf(s, p, i) <==> i == n)
            && (!p(s[n]) ==> forall i :: LastOf(s, p, i) <==> LastOf(s[..n], p, i))
            && (forall i :: LastOf(s[..n], p, i) ==> 0 <= i < n && s[..n][i] == s[i])
  {
    var n := |s| - 1;
    if AnyOf(s[..n], p) {
      var i :| 0 <= i < n && p(s[..n][i]);
      assert p(s[i]);
    }
    if AnyOf(s, p) && !p(s[n]) {
      var i :| 0 <= i < |s| && p(s[i]);
      assert p(s[..n][i]);
    }
    if !p(s[n]) {
      forall i ensures LastOf(s, p, i) <==> LastOf(s[..n], p, i) {
        assert 0 <= i < n ==> s[..n][i] == s[i];
        if LastOf(s[..n], p, i) {
          forall m | i < m < |s| ensures !p(s[m]) {
            assert m < n ==> s[..n][m] == s[m];
          }
        }
      }
    }
  }

  /** Where there is any there is a last, and only one. */
  lemma {:induction false} LastExists<T>(s: seq<T>, p: T -> bool)
    ensures AnyOf(s, p) <==> exists i :: LastOf(s, p, i)
    ensures forall i, j :: LastOf(s, p, i) && LastOf(s, p, j) ==> i == j
  {
    if s == [] {
    } else {
      var n := |s| - 1;
      OneMore(s, p);
      LastExists(s[..n], p);
      if p(s[n]) {
        assert LastOf(s, p, n);
      } else if AnyOf(s[..n], p) {
        var i :| LastOf(s[..n], p, i);
        assert LastOf(s, p, i);
      }
    }
  }
}
