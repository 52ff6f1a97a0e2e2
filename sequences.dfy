/** Searching a sequence front to back, as LINQ's `Where(..).FirstOrDefault()`
    and `FirstOrDefault(predicate)` do. */
module Sequences {
  import opened Wrappers

  /** The index of the first element of `s` that satisfies `f`, if any. */
  function FindFirst<T>(s: seq<T>, f: T -> bool): (r: Option<nat>)
    ensures r.Some? ==> r.value < |s| && f(s[r.value])
    ensures r.Some? ==> forall j :: 0 <= j < r.value ==> !f(s[j])
    ensures r.None? <==> forall j :: 0 <= j < |s| ==> !f(s[j])
  {
    if s == [] then None
    else if f(s[0]) then Some(0)
    else
      match FindFirst(s[1..], f)
      case None => None
      case Some(i) => Some(i + 1)
  }

  /** Appending elements after a match does not move the first match. */
  lemma {:induction false} FindFirstPrefix<T>(s: seq<T>, t: seq<T>, f: T -> bool)
    requires FindFirst(s, f).Some?
    ensures FindFirst(s + t, f) == FindFirst(s, f)
  {
    assert forall j :: 0 <= j < |s| ==> (s + t)[j] == s[j];
  }

  /** The first match is determined by where it is: an index that matches
      and has no match before it is the one `FindFirst` returns. */
  lemma FindFirstAt<T>(s: seq<T>, i: nat, f: T -> bool)
    requires i < |s| && f(s[i])
    requires forall j :: 0 <= j < i ==> !f(s[j])
    ensures FindFirst(s, f) == Some(i)
  {
  }

  /** Inserting an element that `f` rejects anywhere does not change which
      element is found first. */
  lemma FindFirstSkipsRejected<T>(s: seq<T>, k: nat, x: T, f: T -> bool)
    requires k <= |s| && !f(x)
    ensures var r := FindFirst(s[..k] + [x] + s[k..], f);
            var q := FindFirst(s, f);
            (r.None? <==> q.None?) &&
            (q.Some? ==> (s[..k] + [x] + s[k..])[r.value] == s[q.value])
  {
    var u := s[..k] + [x] + s[k..];
    assert |u| == |s| + 1 && u[k] == x;
    assert forall j :: 0 <= j < k ==> u[j] == s[j];
    assert forall j :: k < j < |u| ==> u[j] == s[j - 1];
    FindFirstSkipsAt(s, u, k, f);
  }

  /** `FindFirstSkipsRejected` with the insertion described index by index:
      `u` is `s` with a rejected element placed at position `k`. */
  lemma FindFirstSkipsAt<T>(s: seq<T>, u: seq<T>, k: nat, f: T -> bool)
    requires k <= |s| && |u| == |s| + 1 && !f(u[k])
    requires forall j :: 0 <= j < k ==> u[j] == s[j]
    requires forall j :: k < j < |u| ==> u[j] == s[j - 1]
    ensures FindFirst(u, f).None? <==> FindFirst(s, f).None?
    ensures FindFirst(s, f).Some? ==> u[FindFirst(u, f).value] == s[FindFirst(s, f).value]
  {
    var q := FindFirst(s, f);
    if q.None? {
      forall j | 0 <= j < |u| ensures !f(u[j]) {
        if j > k { assert u[j] == s[j - 1]; }
      }
    } else {
      var i := q.value;
      var ui := if i < k then i else i + 1;
      assert u[ui] == s[i];
      forall j | 0 <= j < ui ensures !f(u[j]) {
        if j > k { assert u[j] == s[j - 1]; }
      }
      FindFirstAt(u, ui, f);
    }
  }
}
