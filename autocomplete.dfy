/**
 * Suggestions for the `id` option while a staff member types it: the catalog ids that
 * start with the upper-cased text typed so far, at most 25 of them, in catalog order.
 */
module Autocomplete {
  import opened Text
  import opened Interaction

  /** The chat platform shows at most this many suggestions. */
  const MaxSuggestions: nat := 25

  function Min(a: nat, b: nat): nat {
    if a <= b then a else b
  }

  /** `ids.filter(c => c.startsWith(p))`. */
  function Matching(ids: seq<string>, p: string): (r: seq<string>)
    ensures |r| <= |ids|
    ensures forall i :: 0 <= i < |r| ==> StartsWith(r[i], p)
  {
    if ids == [] then []
    else if StartsWith(ids[0], p) then [ids[0]] + Matching(ids[1..], p)
    else Matching(ids[1..], p)
  }

  /** `.map(id => ({ name: id, value: id }))`. */
  function Suggest(ids: seq<string>): (r: seq<Choice>)
    ensures |r| == |ids|
    ensures forall i :: 0 <= i < |ids| ==> r[i].name == ids[i] && r[i].value == ids[i]
  {
    seq(|ids|, i requires 0 <= i < |ids| => Choice(ids[i], ids[i]))
  }

  /**
   * Reference definition, independent of filter-then-slice: walk the ids in order, keep
   * each one that starts with `p`, and stop once `n` have been kept.
   */
  function FirstMatches(ids: seq<string>, p: string, n: nat): (r: seq<string>)
  {
    if n == 0 || ids == [] then []
    else if StartsWith(ids[0], p) then [ids[0]] + FirstMatches(ids[1..], p, n - 1)
    else FirstMatches(ids[1..], p, n)
  }

  /** `xs` is `ys` with some elements left out, the rest in their original order. */
  ghost predicate IsSubsequence(xs: seq<string>, ys: seq<string>)
  {
    if xs == [] then true
    else if ys == [] then false
    else (xs[0] == ys[0] && IsSubsequence(xs[1..], ys[1..])) || IsSubsequence(xs, ys[1..])
  }

  /** The autocomplete handler: filter and map, then cut the list down to 25 when it is longer. */
  method Respond(ids: seq<string>, focused: string) returns (filter: seq<Choice>)
    ensures |filter| <= MaxSuggestions
    ensures forall i :: 0 <= i < |filter| ==> filter[i].name == filter[i].value
    ensures forall i :: 0 <= i < |filter| ==> StartsWith(filter[i].value, Upper(focused))
    ensures filter == Suggest(FirstMatches(ids, Upper(focused), MaxSuggestions))
  {
    var value := Upper(focused);
    filter := Suggest(Matching(ids, value));
    if |filter| > MaxSuggestions {
      filter := filter[..MaxSuggestions];
    }
    TakeMatching(ids, value, MaxSuggestions);
    assert Matching(ids, value)[..Min(MaxSuggestions, |Matching(ids, value)|)] == FirstMatches(ids, value, MaxSuggestions);
  }

  // ---------------------------------------------------------------------------
  // The filter.

  /** An id is kept exactly when it is in the catalog and starts with the prefix. */
  lemma {:induction false} MatchingMembers(ids: seq<string>, p: string, x: string)
    ensures x in Matching(ids, p) <==> x in ids && StartsWith(x, p)
  {
    if ids != [] {
      MatchingMembers(ids[1..], p, x);
      assert ids == [ids[0]] + ids[1..];
    }
  }

  /** The kept ids stay in catalog order. */
  lemma {:induction false} MatchingSubsequence(ids: seq<string>, p: string)
    ensures IsSubsequence(Matching(ids, p), ids)
  {
    if ids != [] {
      MatchingSubsequence(ids[1..], p);
      if StartsWith(ids[0], p) {
        assert Matching(ids, p)[1..] == Matching(ids[1..], p);
      }
    }
  }

  /** Filtering a concatenation filters each part. */
  lemma {:induction false} MatchingAppend(a: seq<string>, b: seq<string>, p: string)
    ensures Matching(a + b, p) == Matching(a, p) + Matching(b, p)
  {
    if a != [] {
      assert (a + b)[1..] == a[1..] + b;
      MatchingAppend(a[1..], b, p);
    } else {
      assert a + b == b;
    }
  }

  /** Every id starts with the empty prefix, so nothing is filtered out. */
  lemma {:induction false} MatchingEmptyPrefix(ids: seq<string>)
    ensures Matching(ids, "") == ids
  {
    if ids != [] {
      MatchingEmptyPrefix(ids[1..]);
      StartsWithEmpty(ids[0]);
    }
  }

  // ---------------------------------------------------------------------------
  // Filter-then-slice is the first-n scan.

  lemma {:induction false} TakeMatching(ids: seq<string>, p: string, n: nat)
    ensures Matching(ids, p)[..Min(n, |Matching(ids, p)|)] == FirstMatches(ids, p, n)
  {
    if n != 0 && ids != [] {
      TakeMatching(ids[1..], p, if StartsWith(ids[0], p) then n - 1 else n);
      if StartsWith(ids[0], p) {
        var m := Matching(ids[1..], p);
        assert Matching(ids, p) == [ids[0]] + m;
        assert ([ids[0]] + m)[..Min(n, 1 + |m|)] == [ids[0]] + m[..Min(n - 1, |m|)];
      }
    }
  }

  /** At most `n` ids are suggested, and each of them starts with the prefix. */
  lemma {:induction false} FirstMatchesBounded(ids: seq<string>, p: string, n: nat)
    ensures |FirstMatches(ids, p, n)| <= n
    ensures forall i :: 0 <= i < |FirstMatches(ids, p, n)| ==> StartsWith(FirstMatches(ids, p, n)[i], p)
  {
    TakeMatching(ids, p, n);
  }

  /** Fewer than `n` suggestions means every matching id was suggested. */
  lemma {:induction false} FirstMatchesComplete(ids: seq<string>, p: string, n: nat)
    requires |FirstMatches(ids, p, n)| < n
    ensures FirstMatches(ids, p, n) == Matching(ids, p)
  {
    TakeMatching(ids, p, n);
  }

  /** With nothing typed, the suggestions are simply the first `n` ids. */
  lemma FirstMatchesEmptyPrefix(ids: seq<string>, n: nat)
    ensures FirstMatches(ids, "", n) == ids[..Min(n, |ids|)]
  {
  }

  /** Once `n` matches have been seen, ids further down the catalog do not matter. */
  lemma FirstMatchesAppend(a: seq<string>, b: seq<string>, p: string, n: nat)
    requires |Matching(a, p)| >= n
    ensures FirstMatches(a + b, p, n) == FirstMatches(a, p, n)
  {
    TakeMatching(a, p, n);
    TakeMatching(a + b, p, n);
    MatchingAppend(a, b, p);
    assert (Matching(a, p) + Matching(b, p))[..n] == Matching(a, p)[..n];
  }

  /** With nothing typed, the handler suggests the first 25 catalog ids. */
  lemma RespondEmptyFocus(ids: seq<string>)
    ensures Suggest(FirstMatches(ids, Upper(""), MaxSuggestions)) == Suggest(ids[..Min(MaxSuggestions, |ids|)])
  {
    assert Upper("") == "";
    FirstMatchesEmptyPrefix(ids, MaxSuggestions);
  }
}
