/** Keeping the present results of a per-element function, in order: the shape of both
    passes once their exceptions are set aside. */
module Seqs {
  import opened Wrappers

  /** The values `f` gives on the elements of `s`, in order, leaving out the absent ones. */
  function FilterMap<T, U>(s: seq<T>, f: T -> Option<U>): seq<U>
    decreases |s|
  {
    if s == [] then []
    else FilterMap(s[..|s| - 1], f) + OptionToSeq(f(s[|s| - 1]))
  }

  /** The results of consecutive stretches are concatenated: the order of the input is kept. */
  lemma {:induction false} FilterMapAppend<T, U>(a: seq<T>, b: seq<T>, f: T -> Option<U>)
    ensures FilterMap(a + b, f) == FilterMap(a, f) + FilterMap(b, f)
    decreases |b|
  {
    if b == [] {
      assert a + b == a;
    } else {
      var b' := b[..|b| - 1];
      assert (a + b)[..|a + b| - 1] == a + b';
      assert (a + b)[|a + b| - 1] == b[|b| - 1];
      FilterMapAppend(a, b', f);
    }
  }

  /** Cutting the input anywhere cuts the result at the matching place. */
  lemma FilterMapSplit<T, U>(s: seq<T>, i: nat, f: T -> Option<U>)
    requires i <= |s|
    ensures FilterMap(s, f) == FilterMap(s[..i], f) + FilterMap(s[i..], f)
  {
    assert s == s[..i] + s[i..];
    FilterMapAppend(s[..i], s[i..], f);
  }

  /** The first element's result comes first. */
  lemma FilterMapCons<T, U>(s: seq<T>, f: T -> Option<U>)
    requires s != []
    ensures FilterMap(s, f) == OptionToSeq(f(s[0])) + FilterMap(s[1..], f)
  {
    FilterMapSplit(s, 1, f);
    assert s[..1][..0] == [] && s[..1][0] == s[0];
    assert FilterMap(s[..1], f) == OptionToSeq(f(s[0]));
  }

  /** The element at index i contributes its own result, between those of the elements
      before it and those after it. */
  lemma FilterMapAt<T, U>(s: seq<T>, i: nat, f: T -> Option<U>)
    requires i < |s|
    ensures FilterMap(s, f) == FilterMap(s[..i], f) + (OptionToSeq(f(s[i])) + FilterMap(s[i + 1..], f))
  {
    FilterMapSplit(s, i, f);
    FilterMapCons(s[i..], f);
    assert s[i..][1..] == s[i + 1..];
  }

  /** At most one result per element; exactly one each when `f` never gives None. */
  lemma {:induction false} FilterMapLength<T, U>(s: seq<T>, f: T -> Option<U>)
    ensures |FilterMap(s, f)| <= |s|
    ensures |FilterMap(s, f)| == |s| <==> forall i :: 0 <= i < |s| ==> f(s[i]).Some?
    decreases |s|
  {
    if s != [] {
      var p := s[..|s| - 1];
      FilterMapLength(p, f);
      assert forall i :: 0 <= i < |p| ==> p[i] == s[i];
    }
  }

  /** A value is in the result exactly when `f` gives it for some element. */
  lemma {:induction false} FilterMapMember<T, U>(s: seq<T>, f: T -> Option<U>, u: U)
    ensures u in FilterMap(s, f) <==> exists i :: 0 <= i < |s| && f(s[i]) == Some(u)
    decreases |s|
  {
    if s != [] {
      var n := |s| - 1;
      var p := s[..n];
      FilterMapMember(p, f, u);
      if u in FilterMap(s, f) {
        if u in FilterMap(p, f) {
          var i :| 0 <= i < n && f(p[i]) == Some(u);
          assert s[i] == p[i];
        } else {
          assert f(s[n]) == Some(u);
        }
      }
      if exists i :: 0 <= i < |s| && f(s[i]) == Some(u) {
        var i :| 0 <= i < |s| && f(s[i]) == Some(u);
        if i < n {
          assert p[i] == s[i];
        }
      }
    }
  }
}
