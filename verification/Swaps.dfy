/** Byte swaps in place, and what a list of them does to a buffer: the POF_NTOHS, POF_NTOHL and POF_NTOH64 macros of
    include/pof_byte_transfer.h on a little-endian host. */
module Swaps {
  type u8 = x: int | 0 <= x < 0x100

  /** A number of n bytes at an offset. */
  datatype Range = Range(at: nat, n: nat)
  {
    predicate Has(i: int) {
      at <= i < at + n
    }

    /** Where the swap takes byte i from. */
    function Mirror(i: int): int {
      if Has(i) then at + at + n - 1 - i else i
    }
  }

  type Plan = seq<Range>

  predicate Fits(plan: Plan, size: nat) {
    forall k :: 0 <= k < |plan| ==> plan[k].at + plan[k].n <= size
  }

  /** The first k bytes after one swap. */
  function SwappedUpTo(s: seq<u8>, r: Range, k: nat): (t: seq<u8>)
    requires r.at + r.n <= |s| && k <= |s|
    ensures |t| == k
  {
    if k == 0 then [] else SwappedUpTo(s, r, k - 1) + [s[r.Mirror(k - 1)]]
  }

  function Swapped(s: seq<u8>, r: Range): (t: seq<u8>)
    requires r.at + r.n <= |s|
    ensures |t| == |s|
  {
    SwappedUpTo(s, r, |s|)
  }

  lemma {:induction false} SwappedUpToAt(s: seq<u8>, r: Range, k: nat, i: nat)
    requires r.at + r.n <= |s| && i < k <= |s|
    ensures SwappedUpTo(s, r, k)[i] == s[r.Mirror(i)]
  {
    if i < k - 1 { SwappedUpToAt(s, r, k - 1, i); }
  }

  lemma SwappedAll(s: seq<u8>, r: Range)
    requires r.at + r.n <= |s|
    ensures forall i :: 0 <= i < |s| ==> Swapped(s, r)[i] == s[r.Mirror(i)]
  {
    forall i | 0 <= i < |s|
      ensures Swapped(s, r)[i] == s[r.Mirror(i)]
    {
      SwappedUpToAt(s, r, |s|, i);
    }
  }

  /** The buffer after the swaps of a plan, one after the other. */
  function Converted(s: seq<u8>, plan: Plan): (t: seq<u8>)
    requires Fits(plan, |s|)
    ensures |t| == |s|
  {
    if plan == [] then s else Swapped(Converted(s, plan[..|plan| - 1]), plan[|plan| - 1])
  }

  /** POF_NTOHS_FUNC, POF_NTOHL_FUNC and POF_NTOH64_FUNC: one number's bytes are reversed. */
  method SwapBytes(a: array<u8>, r: Range)
    requires r.at + r.n <= a.Length
    modifies a
    ensures a[..] == Swapped(old(a[..]), r)
  {
    ghost var s := a[..];
    for i := 0 to r.n / 2
      invariant forall k :: 0 <= k < a.Length ==>
        a[k] == if r.at <= k < r.at + i || r.at + r.n - i <= k < r.at + r.n then s[r.Mirror(k)] else s[k]
    {
      a[r.at + i], a[r.at + r.n - 1 - i] := a[r.at + r.n - 1 - i], a[r.at + i];
    }
    SwappedAll(s, r);
  }

  /** Straight-line code that swaps one field after the other. */
  method Apply(a: array<u8>, plan: Plan)
    requires Fits(plan, a.Length)
    modifies a
    ensures a[..] == Converted(old(a[..]), plan)
  {
    ghost var s := a[..];
    assert plan[..0] == [];
    for k := 0 to |plan|
      invariant a[..] == Converted(s, plan[..k])
    {
      assert plan[..k + 1][..k] == plan[..k];
      SwapBytes(a, plan[k]);
    }
    assert plan[..|plan|] == plan;
  }

  lemma {:induction false} ConvertedAppend(s: seq<u8>, p: Plan, q: Plan)
    requires Fits(p, |s|) && Fits(q, |s|)
    ensures Fits(p + q, |s|) && Converted(s, p + q) == Converted(Converted(s, p), q)
  {
    if q == [] {
      assert p + q == p;
    } else {
      var l := |q| - 1;
      ConvertedAppend(s, p, q[..l]);
      assert (p + q)[..|p + q| - 1] == p + q[..l];
    }
  }

  lemma ConvertedTwo(s: seq<u8>, r: Range, q: Range)
    requires r.at + r.n <= |s| && q.at + q.n <= |s|
    ensures Converted(s, [r, q]) == Swapped(Swapped(s, r), q)
  {
    assert [r][..0] == [] && [r, q][..1] == [r];
    assert Converted(s, [r]) == Swapped(Converted(s, [r][..0]), r);
  }

  /** The ranges lie in [lo, hi) and do not overlap. */
  ghost predicate Sound(plan: Plan, lo: int, hi: int) {
    && (forall k :: 0 <= k < |plan| ==> lo <= plan[k].at && plan[k].at + plan[k].n <= hi)
    && (forall j, k :: 0 <= j < k < |plan| ==> Apart(plan[j], plan[k]))
  }

  predicate Apart(r: Range, q: Range) {
    r.at + r.n <= q.at || q.at + q.n <= r.at
  }

  lemma SoundAppend(p: Plan, q: Plan, lo: int, mid: int, hi: int)
    requires Sound(p, lo, mid) && Sound(q, mid, hi) && lo <= mid <= hi
    ensures Sound(p + q, lo, hi) && Sound(q + p, lo, hi)
  {}

  lemma SoundWithin(p: Plan, lo: int, hi: int, lo': int, hi': int)
    requires Sound(p, lo, hi) && lo' <= lo && hi <= hi'
    ensures Sound(p, lo', hi')
  {}

  /** Where a plan of separate ranges takes byte i from. */
  function Source(plan: Plan, i: int): int {
    if plan == [] then i
    else if plan[|plan| - 1].Has(i) then plan[|plan| - 1].Mirror(i)
    else Source(plan[..|plan| - 1], i)
  }

  predicate Touches(plan: Plan, i: int) {
    plan != [] && (plan[|plan| - 1].Has(i) || Touches(plan[..|plan| - 1], i))
  }

  lemma {:induction false} Untouched(plan: Plan, i: int)
    ensures Touches(plan, i) <==> exists k :: 0 <= k < |plan| && plan[k].Has(i)
    ensures !Touches(plan, i) ==> Source(plan, i) == i
  {
    if plan != [] {
      var init := plan[..|plan| - 1];
      Untouched(init, i);
      assert Touches(plan, i) ==> exists k :: 0 <= k < |plan| && plan[k].Has(i) by {
        if Touches(init, i) {
          var k :| 0 <= k < |init| && init[k].Has(i);
          assert plan[k].Has(i);
        }
      }
      if k :| 0 <= k < |plan| && plan[k].Has(i) {
        assert k < |init| ==> init[k].Has(i);
      }
    }
  }

  lemma {:induction false} SourceAppend(p: Plan, q: Plan, i: int)
    ensures Source(p + q, i) == if Touches(q, i) then Source(q, i) else Source(p, i)
  {
    if q == [] {
      assert p + q == p;
    } else {
      assert (p + q)[..|p + q| - 1] == p + q[..|q| - 1];
      SourceAppend(p, q[..|q| - 1], i);
    }
  }

  lemma {:induction false} TouchesAppend(p: Plan, q: Plan, i: int)
    ensures Touches(p + q, i) <==> Touches(p, i) || Touches(q, i)
  {
    if q == [] {
      assert p + q == p;
    } else {
      assert (p + q)[..|p + q| - 1] == p + q[..|q| - 1];
      TouchesAppend(p, q[..|q| - 1], i);
    }
  }

  lemma OutsideUntouched(plan: Plan, lo: int, hi: int, i: int)
    requires Sound(plan, lo, hi) && !(lo <= i < hi)
    ensures !Touches(plan, i) && Source(plan, i) == i
  {
    Untouched(plan, i);
  }

  /** A byte outside a range apart from the whole plan is taken from outside that range. */
  lemma {:induction false} SourceAvoids(plan: Plan, r: Range, i: int)
    requires (forall k :: 0 <= k < |plan| ==> Apart(plan[k], r)) && !r.Has(i)
    ensures !r.Has(Source(plan, i))
  {
    if plan != [] { SourceAvoids(plan[..|plan| - 1], r, i); }
  }

  lemma SoundInit(plan: Plan, lo: int, hi: int)
    requires Sound(plan, lo, hi) && plan != []
    ensures Sound(plan[..|plan| - 1], lo, hi)
    ensures var init := plan[..|plan| - 1]; forall k :: 0 <= k < |init| ==> Apart(init[k], plan[|init|])
  {
    assert forall k :: 0 <= k < |plan| - 1 ==> plan[..|plan| - 1][k] == plan[k];
  }

  lemma {:induction false} SourceTwice(plan: Plan, lo: int, hi: int, i: int)
    requires Sound(plan, lo, hi)
    ensures Source(plan, Source(plan, i)) == i
    ensures lo <= i < hi <==> lo <= Source(plan, i) < hi
  {
    if plan != [] {
      SoundInit(plan, lo, hi);
      SourceTwice(plan[..|plan| - 1], lo, hi, i);
      if !plan[|plan| - 1].Has(i) { SourceAvoids(plan[..|plan| - 1], plan[|plan| - 1], i); }
    }
  }

  /** With ranges that do not overlap, each byte takes part in at most one swap. */
  lemma {:induction false} ConvertedAt(s: seq<u8>, plan: Plan, i: nat)
    requires Sound(plan, 0, |s|) && i < |s|
    ensures Fits(plan, |s|) && 0 <= Source(plan, i) < |s|
    ensures Converted(s, plan)[i] == s[Source(plan, i)]
  {
    SourceTwice(plan, 0, |s|, i);
    if plan != [] {
      SoundInit(plan, 0, |s|);
      var init, r := plan[..|plan| - 1], plan[|plan| - 1];
      ConvertedAt(s, init, r.Mirror(i));
      Untouched(init, r.Mirror(i));
      SwappedAll(Converted(s, init), r);
    }
  }

  /** Swapping twice restores the buffer. */
  lemma TwiceIsIdentity(s: seq<u8>, plan: Plan)
    requires Sound(plan, 0, |s|)
    ensures Fits(plan, |s|) && Converted(Converted(s, plan), plan) == s
  {
    forall i | 0 <= i < |s|
      ensures Converted(Converted(s, plan), plan)[i] == s[i]
    {
      SourceTwice(plan, 0, |s|, i);
      ConvertedAt(Converted(s, plan), plan, i);
      ConvertedAt(s, plan, Source(plan, i));
    }
  }

  /** Two plans of separate ranges can be carried out in either order. */
  lemma Commute(s: seq<u8>, p: Plan, q: Plan)
    requires Sound(p + q, 0, |s|) && Sound(q + p, 0, |s|)
    ensures Fits(p, |s|) && Fits(q, |s|)
    ensures Converted(Converted(s, p), q) == Converted(s, q + p)
  {
    assert forall k :: 0 <= k < |p| ==> p[k] == (p + q)[k];
    assert forall k :: 0 <= k < |q| ==> q[k] == (p + q)[|p| + k];
    ConvertedAppend(s, p, q);
    forall i | 0 <= i < |s|
      ensures Converted(s, p + q)[i] == Converted(s, q + p)[i]
    {
      ConvertedAt(s, p + q, i);
      ConvertedAt(s, q + p, i);
      SourceAppend(p, q, i);
      SourceAppend(q, p, i);
      Untouched(p, i);
      Untouched(q, i);
      NotBoth(p, q, i);
    }
  }

  lemma NotBoth(p: Plan, q: Plan, i: int)
    requires forall j, k :: 0 <= j < k < |p + q| ==> Apart((p + q)[j], (p + q)[k])
    ensures !(Touches(p, i) && Touches(q, i))
  {
    Untouched(p, i);
    Untouched(q, i);
    if Touches(p, i) {
      var j :| 0 <= j < |p| && p[j].Has(i);
      forall k | 0 <= k < |q|
        ensures !q[k].Has(i)
      {
        assert Apart((p + q)[j], (p + q)[|p| + k]);
      }
    }
  }

  /** A plan changes nothing outside the stretch it lies in. */
  lemma KeptOutside(s: seq<u8>, plan: Plan, lo: int, hi: int)
    requires Sound(plan, lo, hi) && 0 <= lo && hi <= |s|
    ensures Fits(plan, |s|)
    ensures forall i :: 0 <= i < |s| && !(lo <= i < hi) ==> Converted(s, plan)[i] == s[i]
  {
    forall i | 0 <= i < |s| && !(lo <= i < hi)
      ensures Converted(s, plan)[i] == s[i]
    {
      ConvertedAt(s, plan, i);
      Untouched(plan, i);
    }
  }

  /** A plan changes nothing exactly when each of its numbers reads the same both ways. */
  lemma UnchangedIff(s: seq<u8>, plan: Plan)
    requires Sound(plan, 0, |s|)
    ensures Fits(plan, |s|)
    ensures Converted(s, plan) == s <==> SameBothWays(s, plan)
  {
    if SameBothWays(s, plan) {
      forall i | 0 <= i < |s|
        ensures Converted(s, plan)[i] == s[i]
      {
        ConvertedAt(s, plan, i);
        SourceRange(plan, 0, |s|, i);
      }
    } else {
      var k, i :| 0 <= k < |plan| && plan[k].Has(i) && s[i] != s[plan[k].Mirror(i)];
      ConvertedAt(s, plan, i);
      SourceAt(plan, 0, |s|, k, i);
    }
  }

  ghost predicate SameBothWays(s: seq<u8>, plan: Plan)
    requires Fits(plan, |s|)
  {
    forall k, i :: 0 <= k < |plan| && plan[k].Has(i) ==> s[i] == s[plan[k].Mirror(i)]
  }

  lemma {:induction false} SourceAt(plan: Plan, lo: int, hi: int, k: nat, i: int)
    requires Sound(plan, lo, hi) && k < |plan| && plan[k].Has(i)
    ensures Source(plan, i) == plan[k].Mirror(i)
  {
    if k < |plan| - 1 {
      SoundInit(plan, lo, hi);
      assert Apart(plan[k], plan[|plan| - 1]);
      SourceAt(plan[..|plan| - 1], lo, hi, k, i);
    }
  }

  lemma SourceRange(plan: Plan, lo: int, hi: int, i: int)
    requires Sound(plan, lo, hi)
    ensures Source(plan, i) == i ||
            exists k :: 0 <= k < |plan| && plan[k].Has(i) && Source(plan, i) == plan[k].Mirror(i)
  {
    Untouched(plan, i);
    if Touches(plan, i) {
      var k :| 0 <= k < |plan| && plan[k].Has(i);
      SourceAt(plan, lo, hi, k, i);
    }
  }

  /** The plans of the elements of an array, one after the other; element k lies in [at(k), at(k + 1)). */
  function Blocks(f: nat -> Plan, n: nat): Plan {
    if n == 0 then [] else Blocks(f, n - 1) + f(n - 1)
  }

  ghost predicate Array(f: nat -> Plan, at: nat -> nat, n: nat) {
    forall k: nat {:trigger f(k)} :: k < n ==> at(k) <= at(k + 1) && Sound(f(k), at(k), at(k + 1))
  }

  lemma {:induction false} BlocksSound(f: nat -> Plan, at: nat -> nat, n: nat)
    requires Array(f, at, n)
    ensures at(0) <= at(n) && Sound(Blocks(f, n), at(0), at(n))
  {
    if n > 0 {
      var last := f(n - 1);
      assert at(n - 1) <= at(n) && Sound(last, at(n - 1), at(n));
      BlocksSound(f, at, n - 1);
      SoundAppend(Blocks(f, n - 1), last, at(0), at(n - 1), at(n));
    }
  }

  lemma {:induction false} AtGrows(f: nat -> Plan, at: nat -> nat, n: nat, k: nat)
    requires Array(f, at, n) && k <= n
    ensures at(k) <= at(n)
  {
    if k < n {
      assert at(n - 1) <= at(n) by { assert f(n - 1) == f(n - 1); }
      AtGrows(f, at, n - 1, k);
    }
  }

  lemma {:induction false} BlocksEqual(f: nat -> Plan, g: nat -> Plan, n: nat)
    requires forall k: nat {:trigger f(k)} {:trigger g(k)} :: k < n ==> f(k) == g(k)
    ensures Blocks(f, n) == Blocks(g, n)
  {
    if n > 0 { BlocksEqual(f, g, n - 1); }
  }

  /** Each element's bytes follow the element's own plan. */
  lemma {:induction false} BlocksSource(f: nat -> Plan, at: nat -> nat, n: nat, k: nat, i: int)
    requires Array(f, at, n) && k < n && at(k) <= i < at(k + 1)
    ensures Source(Blocks(f, n), i) == Source(f(k), i)
  {
    LastBlock(f, at, n, i);
    if k < n - 1 {
      ArrayInit(f, at, n, n - 1);
      AtGrows(f, at, n - 1, k + 1);
      BlocksSource(f, at, n - 1, k, i);
    }
  }

  lemma ArrayInit(f: nat -> Plan, at: nat -> nat, n: nat, m: nat)
    requires Array(f, at, n) && m <= n
    ensures Array(f, at, m)
  {
    forall k: nat | k < m
      ensures at(k) <= at(k + 1) && Sound(f(k), at(k), at(k + 1))
    {
      var plan := f(k);
    }
  }

  /** The last element's bytes follow its plan, the bytes before it the plan of the other elements. */
  lemma LastBlock(f: nat -> Plan, at: nat -> nat, n: nat, i: int)
    requires n > 0 && Array(f, at, n)
    ensures Source(Blocks(f, n), i) == if i < at(n - 1) then Source(Blocks(f, n - 1), i) else Source(f(n - 1), i)
  {
    var mid, end := at(n - 1), at(n);
    BlocksSound(f, at, n - 1);
    assert Sound(f(n - 1), mid, end);
    StretchSource(Blocks(f, n - 1), f(n - 1), at(0), mid, end, i);
  }

  /** t holds, in [lo, hi), what the plan makes of s. */
  ghost predicate ConvertedIn(s: seq<u8>, t: seq<u8>, plan: Plan, lo: int, hi: int)
    requires |t| == |s|
  {
    forall i {:trigger Source(plan, i)} {:trigger t[i]} ::
      0 <= i < |s| && lo <= i < hi ==> 0 <= Source(plan, i) < |s| && t[i] == s[Source(plan, i)]
  }

  /** t is s in [lo, hi). */
  predicate SameIn(s: seq<u8>, t: seq<u8>, lo: int, hi: int) {
    |t| == |s| && forall i :: 0 <= i < |s| && lo <= i < hi ==> t[i] == s[i]
  }

  /** What a plan makes of its own stretch does not depend on the rest of the buffer. */
  lemma Localized(s: seq<u8>, s': seq<u8>, t: seq<u8>, t': seq<u8>, plan: Plan, lo: int, hi: int)
    requires Sound(plan, lo, hi) && 0 <= lo && hi <= |s| == |t| && SameIn(s, s', lo, hi)
    requires ConvertedIn(s, t, plan, lo, hi) && Fits(plan, |s'|) && t' == Converted(s', plan)
    ensures SameIn(t, t', lo, hi) && forall i :: 0 <= i < |s'| && !(lo <= i < hi) ==> t'[i] == s'[i]
  {
    KeptOutside(s', plan, lo, hi);
    forall i | 0 <= i < |s| && lo <= i < hi
      ensures t'[i] == t[i]
    {
      SourceTwice(plan, lo, hi, i);
      ConvertedAt(s', plan, i);
    }
  }

  lemma BlocksConverted(s: seq<u8>, t: seq<u8>, f: nat -> Plan, at: nat -> nat, n: nat, k: nat)
    requires Array(f, at, n) && k < n && |t| == |s| && at(n) <= |s|
    requires ConvertedIn(s, t, Blocks(f, n), at(0), at(n))
    ensures ConvertedIn(s, t, f(k), at(k), at(k + 1))
  {
    AtGrows(f, at, k, 0);
    AtGrows(f, at, n, k + 1);
    forall i | 0 <= i < |s| && at(k) <= i < at(k + 1)
      ensures Source(Blocks(f, n), i) == Source(f(k), i)
    {
      BlocksSource(f, at, n, k, i);
    }
  }

  /** A plan in two stretches: each stretch follows its own part. */
  lemma StretchSource(before: Plan, after: Plan, lo: int, mid: int, hi: int, i: int)
    requires Sound(before, lo, mid) && Sound(after, mid, hi)
    ensures Source(before + after, i) == if i < mid then Source(before, i) else Source(after, i)
  {
    SourceAppend(before, after, i);
    if i < mid {
      OutsideUntouched(after, mid, hi, i);
    } else {
      OutsideUntouched(before, lo, mid, i);
      Untouched(after, i);
    }
  }

  /** One step of a loop over an array: the element is still as it was, and converting it completes the longer plan. */
  lemma BlocksNext(s: seq<u8>, f: nat -> Plan, at: nat -> nat, n: nat, i: nat)
    requires Array(f, at, n) && i < n && at(n) <= |s|
    ensures Fits(Blocks(f, i), |s|) && Fits(f(i), |s|) && Fits(Blocks(f, i + 1), |s|)
    ensures forall j :: 0 <= j < |s| && !(at(0) <= j < at(i)) ==> Converted(s, Blocks(f, i))[j] == s[j]
    ensures Converted(Converted(s, Blocks(f, i)), f(i)) == Converted(s, Blocks(f, i + 1))
  {
    BlocksSound(f, at, i);
    assert Sound(f(i), at(i), at(i + 1));
    AtGrows(f, at, n, i + 1);
    NextStretch(s, Blocks(f, i), f(i), at(0), at(i), at(i + 1));
  }

  lemma NextStretch(s: seq<u8>, before: Plan, next: Plan, lo: nat, mid: nat, hi: nat)
    requires Sound(before, lo, mid) && Sound(next, mid, hi) && lo <= mid <= hi <= |s|
    ensures Fits(before, |s|) && Fits(next, |s|) && Fits(before + next, |s|)
    ensures forall j :: 0 <= j < |s| && !(lo <= j < mid) ==> Converted(s, before)[j] == s[j]
    ensures Converted(Converted(s, before), next) == Converted(s, before + next)
  {
    KeptOutside(s, before, lo, mid);
    ConvertedAppend(s, before, next);
  }

  lemma StretchConverted(s: seq<u8>, t: seq<u8>, before: Plan, after: Plan, lo: int, mid: int, hi: int)
    requires Sound(before, lo, mid) && Sound(after, mid, hi) && |t| == |s| && lo <= mid <= hi
    requires ConvertedIn(s, t, before + after, lo, hi)
    ensures ConvertedIn(s, t, before, lo, mid) && ConvertedIn(s, t, after, mid, hi)
  {
    forall i | 0 <= i < |s| && lo <= i < hi
      ensures Source(before + after, i) == if i < mid then Source(before, i) else Source(after, i)
    {
      StretchSource(before, after, lo, mid, hi, i);
    }
  }
}
