/** What several components share: optional values, the size of a message buffer, and two notions
    about sequences. */
module Common {

  datatype Option<+T> = None | Some(value: T)

  const NATS_MSG_MAX_LEN := 2048

  ghost predicate Distinct<T>(s: seq<T>) {
    forall i, j :: 0 <= i < j < |s| ==> s[i] != s[j]
  }

  /** The sequence without its `k`-th element. */
  function Without<T>(s: seq<T>, k: nat): (r: seq<T>)
    requires k < |s|
    ensures |r| == |s| - 1
    ensures forall i :: 0 <= i < |r| ==> r[i] == s[if i < k then i else i + 1]
  {
    s[..k] + s[k + 1..]
  }

  lemma {:induction false} WithoutParts<T>(s: seq<T>, k: nat)
    requires k < |s|
    ensures s == Without(s, k)[..k] + [s[k]] + Without(s, k)[k..]
    ensures multiset(s) == multiset(Without(s, k)) + multiset{s[k]}
  {
    var r := Without(s, k);
    assert r[..k] == s[..k] && r[k..] == s[k + 1..];
    assert s == s[..k] + [s[k]] + s[k + 1..];
    assert multiset(r) == multiset(s[..k]) + multiset(s[k + 1..]);
  }

  lemma {:induction false} WithoutDistinct<T>(s: seq<T>, k: nat)
    requires k < |s| && Distinct(s)
    ensures Distinct(Without(s, k))
    ensures forall x :: x in Without(s, k) <==> x in s && x != s[k]
  {
    var t := Without(s, k);
    forall x | x in s && x != s[k] ensures x in t {
      var i :| 0 <= i < |s| && s[i] == x;
      assert t[if i < k then i else i - 1] == x;
    }
  }
}
