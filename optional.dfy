/** Absent values. A discharge that the gauge did not record, and a statistic
    that is not a number (an empty mean, a ratio with a zero denominator), are
    both `None`. `Present` is the "drop the absent entries" step that every
    metric takes first. */
module Optional {

  datatype Option<T> = None | Some(value: T)

  /** The present entries of `s`, in their original order. */
  function Present<T>(s: seq<Option<T>>): (v: seq<T>)
    ensures |v| <= |s|
  {
    if s == [] then []
    else if s[0].Some? then [s[0].value] + Present(s[1..])
    else Present(s[1..])
  }

  /** `Present` keeps every present value and invents none. */
  lemma {:induction false} PresentMembers<T>(s: seq<Option<T>>)
    ensures forall i :: 0 <= i < |Present(s)| ==> Some(Present(s)[i]) in s
    ensures forall i :: 0 <= i < |s| && s[i].Some? ==> s[i].value in Present(s)
  {
    if s != [] {
      PresentMembers(s[1..]);
      assert forall i :: 1 <= i < |s| ==> s[i] == s[1..][i - 1];
    }
  }

  /** The number of absent entries of `s`. */
  function CountAbsent<T>(s: seq<Option<T>>): (n: nat)
    ensures n <= |s|
  {
    if s == [] then 0
    else (if s[0].None? then 1 else 0) + CountAbsent(s[1..])
  }

  /** Every entry is either counted as absent or kept by `Present`. */
  lemma {:induction false} AbsentPlusPresent<T>(s: seq<Option<T>>)
    ensures CountAbsent(s) + |Present(s)| == |s|
  {
    if s != [] {
      AbsentPlusPresent(s[1..]);
    }
  }

  /** Every entry wrapped as present. */
  function AllSome<T>(v: seq<T>): seq<Option<T>>
  {
    seq(|v|, i requires 0 <= i < |v| => Some(v[i]))
  }

  /** Dropping the absent entries of a fully present sequence changes nothing. */
  lemma {:induction false} PresentAllSome<T>(v: seq<T>)
    ensures Present(AllSome(v)) == v
  {
    if v != [] {
      assert AllSome(v)[1..] == AllSome(v[1..]);
      PresentAllSome(v[1..]);
    }
  }

  lemma {:induction false} PresentAppend<T>(a: seq<Option<T>>, b: seq<Option<T>>)
    ensures Present(a + b) == Present(a) + Present(b)
  {
    if a == [] {
      assert a + b == b;
    } else {
      assert (a + b)[1..] == a[1..] + b;
      PresentAppend(a[1..], b);
    }
  }

  /** A sequence that is absent on its first `k` entries and present on the
      rest keeps exactly the rest. */
  lemma {:induction false} PresentAfterPrefix<T>(s: seq<Option<T>>, k: nat)
    requires k <= |s|
    requires forall i :: 0 <= i < k ==> s[i].None?
    requires forall i :: k <= i < |s| ==> s[i].Some?
    ensures |Present(s)| == |s| - k
    ensures forall i :: 0 <= i < |s| - k ==> Present(s)[i] == s[k + i].value
  {
    if s != [] {
      if k == 0 {
        PresentAfterPrefix(s[1..], 0);
      } else {
        PresentAfterPrefix(s[1..], k - 1);
      }
    }
  }
}
