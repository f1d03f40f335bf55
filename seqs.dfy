/** The usual optional value; a missing JSON field or a failed lookup is None. */
module Optional {
  datatype Option<+T> = None | Some(value: T)
}

/**
 * Order-preserving filters over sequences. Every "for it in items: if ...:
 * result.append(...)" loop of the subtitle fetcher builds one of these two
 * shapes, so their properties are proved once here.
 */
module Seqs {
  import opened Optional

  /** The elements of s that satisfy keep, in their original order. */
  function Filter<T>(s: seq<T>, keep: T -> bool): (r: seq<T>)
    ensures |r| <= |s|
    ensures forall x :: x in r ==> x in s && keep(x)
  {
    if s == [] then []
    else
      var init := Filter(s[..|s| - 1], keep);
      if keep(s[|s| - 1]) then init + [s[|s| - 1]] else init
  }

  /** The present results of f over s, in the order of s. */
  function FilterMap<T, U>(s: seq<T>, f: T -> Option<U>): (r: seq<U>)
    ensures |r| <= |s|
  {
    if s == [] then []
    else
      var init := FilterMap(s[..|s| - 1], f);
      match f(s[|s| - 1])
      case Some(y) => init + [y]
      case None => init
  }

  /** An element survives the filter exactly when it is in s and satisfies keep. */
  lemma {:induction false} FilterMember<T>(s: seq<T>, keep: T -> bool, x: T)
    ensures x in Filter(s, keep) <==> x in s && keep(x)
  {
    if s != [] {
      var init := s[..|s| - 1];
      FilterMember(init, keep, x);
      assert s == init + [s[|s| - 1]];
    }
  }

  /** Filtering distributes over concatenation: relative order is kept. */
  lemma {:induction false} FilterAppend<T>(a: seq<T>, b: seq<T>, keep: T -> bool)
    ensures Filter(a + b, keep) == Filter(a, keep) + Filter(b, keep)
  {
    if b == [] {
      assert a + b == a;
    } else {
      var b' := b[..|b| - 1];
      assert (a + b)[..|a + b| - 1] == a + b';
      FilterAppend(a, b', keep);
    }
  }

  /** The filter is empty exactly when no element satisfies keep. */
  lemma {:induction false} FilterEmpty<T>(s: seq<T>, keep: T -> bool)
    ensures Filter(s, keep) == [] <==> forall i :: 0 <= i < |s| ==> !keep(s[i])
  {
    if s != [] {
      var init := s[..|s| - 1];
      FilterEmpty(init, keep);
      assert forall i :: 0 <= i < |init| ==> init[i] == s[i];
    }
  }

  /** The head of a non-empty filter is the first element of s that satisfies keep. */
  lemma {:induction false} FilterHead<T>(s: seq<T>, keep: T -> bool) returns (i: nat)
    requires Filter(s, keep) != []
    ensures i < |s| && s[i] == Filter(s, keep)[0] && keep(s[i])
    ensures forall j :: 0 <= j < i ==> !keep(s[j])
  {
    var init := s[..|s| - 1];
    if Filter(init, keep) == [] {
      FilterEmpty(init, keep);
      i := |s| - 1;
    } else {
      i := FilterHead(init, keep);
    }
  }

  /** A filter that keeps everything is the identity. */
  lemma {:induction false} FilterAll<T>(s: seq<T>, keep: T -> bool)
    requires forall i :: 0 <= i < |s| ==> keep(s[i])
    ensures Filter(s, keep) == s
  {
    if s != [] {
      var init, last := s[..|s| - 1], s[|s| - 1];
      forall i | 0 <= i < |init|
        ensures keep(init[i])
      {
        assert init[i] == s[i];
      }
      FilterAll(init, keep);
      assert keep(last);
      assert s == init + [last];
    }
  }

  /** A value is produced exactly when f produces it for some element. */
  lemma {:induction false} FilterMapMember<T, U>(s: seq<T>, f: T -> Option<U>, y: U)
    ensures y in FilterMap(s, f) <==> exists i :: 0 <= i < |s| && f(s[i]) == Some(y)
  {
    if s != [] {
      var init := s[..|s| - 1];
      FilterMapMember(init, f, y);
      assert forall i :: 0 <= i < |init| ==> init[i] == s[i];
    }
  }

  /** FilterMap distributes over concatenation: relative order is kept. */
  lemma {:induction false} FilterMapAppend<T, U>(a: seq<T>, b: seq<T>, f: T -> Option<U>)
    ensures FilterMap(a + b, f) == FilterMap(a, f) + FilterMap(b, f)
  {
    if b == [] {
      assert a + b == a;
    } else {
      var b' := b[..|b| - 1];
      assert (a + b)[..|a + b| - 1] == a + b';
      FilterMapAppend(a, b', f);
    }
  }

  /** FilterMap is empty exactly when f produces nothing for any element. */
  lemma {:induction false} FilterMapEmpty<T, U>(s: seq<T>, f: T -> Option<U>)
    ensures FilterMap(s, f) == [] <==> forall i :: 0 <= i < |s| ==> f(s[i]).None?
  {
    if s != [] {
      var init := s[..|s| - 1];
      FilterMapEmpty(init, f);
      assert forall i :: 0 <= i < |init| ==> init[i] == s[i];
    }
  }

  /** FilterMap drops nothing when f is defined on every element. */
  lemma {:induction false} FilterMapTotal<T, U>(s: seq<T>, f: T -> Option<U>)
    requires forall i :: 0 <= i < |s| ==> f(s[i]).Some?
    ensures |FilterMap(s, f)| == |s|
    ensures forall i :: 0 <= i < |s| ==> FilterMap(s, f)[i] == f(s[i]).value
  {
    if s != [] {
      FilterMapTotal(s[..|s| - 1], f);
    }
  }
}
