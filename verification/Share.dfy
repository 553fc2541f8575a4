/**
 Share scopes (pkg/apis/share.go) on top of sorted string lists (pkg/util/stringutils2/sortedstrings.go) and the
 scope scores of rbacscope. Lists may hold duplicates, so list comparison is comparison of multisets.
 */
module Shares {

  // ------------------------------------------------------------ sorted strings

  /** Byte-wise order of strings. */
  predicate Less(a: string, b: string)
  {
    b != [] && (a == [] || a[0] < b[0] || (a[0] == b[0] && Less(a[1..], b[1..])))
  }

  lemma {:induction false} LessTotal(a: string, b: string)
    ensures a == b || Less(a, b) || Less(b, a)
    ensures !(Less(a, b) && Less(b, a)) && !Less(a, a)
    decreases |a|
  {
    if a != [] {
      LessTotal(a[1..], a[1..]);
      if b != [] && a[0] == b[0] {
        LessTotal(a[1..], b[1..]);
        assert a == [a[0]] + a[1..] && b == [b[0]] + b[1..];
      }
    }
  }

  /** What the order means: k bytes agree, and then a ends before b or has the smaller byte. */
  lemma {:induction false} LessMeaning(a: string, b: string) returns (k: nat)
    ensures k <= |a| && k <= |b| && a[..k] == b[..k] && (k < |a| && k < |b| ==> a[k] != b[k])
    ensures Less(a, b) <==> k < |b| && (k == |a| || a[k] < b[k])
    decreases |a|
  {
    k := 0;
    if a != [] && b != [] && a[0] == b[0] {
      var rest := LessMeaning(a[1..], b[1..]);
      k := rest + 1;
      assert a[..k] == [a[0]] + a[1..][..rest] && b[..k] == [b[0]] + b[1..][..rest];
    }
  }

  lemma {:induction false} LessTransitive(a: string, b: string, c: string)
    requires Less(a, b) && Less(b, c)
    ensures Less(a, c)
    decreases |a|
  {
    if a != [] && a[0] == b[0] == c[0] {
      LessTransitive(a[1..], b[1..], c[1..]);
    }
  }

  predicate AtMost(a: string, b: string)
  {
    a == b || Less(a, b)
  }

  ghost predicate Sorted(s: seq<string>)
  {
    forall i, j :: 0 <= i < j < |s| ==> AtMost(s[i], s[j])
  }

  lemma AtMostLess(a: string, b: string, c: string)
    requires (Less(a, b) && AtMost(b, c)) || (AtMost(a, b) && Less(b, c))
    ensures Less(a, c)
  {
    if b != c && a != b {
      LessTransitive(a, b, c);
    }
  }

  /** A sorting of the list, as sort.Strings may make it. */
  method SortedCopy(strs: seq<string>) returns (r: seq<string>)
    ensures Sorted(r) && multiset(r) == multiset(strs)
  {
    r := [];
    for n := 0 to |strs|
      invariant Sorted(r) && multiset(r) == multiset(strs[..n])
    {
      var x := strs[n];
      var i := |r|;
      while i > 0 && Less(x, r[i - 1])
        invariant 0 <= i <= |r| && forall k :: i <= k < |r| ==> Less(x, r[k])
      {
        i := i - 1;
      }
      Inserted(r, x, i);
      assert strs[..n + 1] == strs[..n] + [x];
      assert r == r[..i] + r[i..];
      r := r[..i] + [x] + r[i..];
    }
    assert strs[..|strs|] == strs;
  }

  lemma SameLength(a: seq<string>, b: seq<string>)
    requires multiset(a) == multiset(b)
    ensures |a| == |b|
  {
    assert |multiset(a)| == |a| && |multiset(b)| == |b|;
  }

  /** NewSortedStrings sorts the caller's own list. */
  method NewSortedStrings(strs: array<string>)
    modifies strs
    ensures Sorted(strs[..]) && multiset(strs[..]) == multiset(old(strs[..]))
  {
    var r := SortedCopy(strs[..]);
    SameLength(r, strs[..]);
    forall i | 0 <= i < strs.Length {
      strs[i] := r[i];
    }
    assert strs[..] == r;
  }

  lemma Inserted(r: seq<string>, x: string, i: nat)
    requires Sorted(r) && i <= |r| && (i > 0 ==> !Less(x, r[i - 1])) && forall k :: i <= k < |r| ==> Less(x, r[k])
    ensures Sorted(r[..i] + [x] + r[i..])
  {
    forall k | 0 <= k < i
      ensures AtMost(r[k], x)
    {
      LessTotal(x, r[i - 1]);
      if k < i - 1 && r[k] != r[i - 1] && r[i - 1] != x {
        LessTransitive(r[k], r[i - 1], x);
      }
    }
  }

  /** Common part and the two rests of a merge walk. */
  ghost predicate Walked(a: seq<string>, b: seq<string>, i: nat, j: nat, aNoB: seq<string>, both: seq<string>,
      bNoA: seq<string>)
    requires i <= |a| && j <= |b|
  {
    && multiset(both) + multiset(aNoB) == multiset(a[..i]) && multiset(both) + multiset(bNoA) == multiset(b[..j])
    && (forall x :: x in aNoB ==> x !in bNoA)
    && (j < |b| ==> forall x :: x in aNoB ==> Less(x, b[j]))
    && (i < |a| ==> forall x :: x in bNoA ==> Less(x, a[i]))
  }

  /** Every element of the rest of a sorted list is at least its first. */
  lemma BelowRest(s: seq<string>, i: nat, x: string, k: nat)
    requires Sorted(s) && i <= k < |s| && Less(x, s[i])
    ensures Less(x, s[k])
  {
    if i < k {
      AtMostLess(x, s[i], s[k]);
    }
  }

  lemma TakeOne(s: seq<string>, i: nat)
    requires i < |s|
    ensures multiset(s[..i + 1]) == multiset(s[..i]) + multiset{s[i]}
  {
    assert s[..i + 1] == s[..i] + [s[i]];
  }

  /** A common element moves both ends on. */
  lemma WalkBoth(a: seq<string>, b: seq<string>, i: nat, j: nat, aNoB: seq<string>, both: seq<string>,
      bNoA: seq<string>)
    requires Sorted(a) && Sorted(b) && i < |a| && j < |b| && a[i] == b[j] && Walked(a, b, i, j, aNoB, both, bNoA)
    ensures Walked(a, b, i + 1, j + 1, aNoB, both + [a[i]], bNoA)
  {
    TakeOne(a, i);
    TakeOne(b, j);
    if j + 1 < |b| {
      forall x | x in aNoB ensures Less(x, b[j + 1]) { BelowRest(b, j, x, j + 1); }
    }
    if i + 1 < |a| {
      forall x | x in bNoA ensures Less(x, a[i + 1]) { BelowRest(a, i, x, i + 1); }
    }
  }

  /** An element of a below the rest of b belongs to a alone. */
  lemma WalkLeft(a: seq<string>, b: seq<string>, i: nat, j: nat, aNoB: seq<string>, both: seq<string>,
      bNoA: seq<string>)
    requires Sorted(a) && i < |a| && j <= |b| && (j < |b| ==> Less(a[i], b[j])) && Walked(a, b, i, j, aNoB, both, bNoA)
    ensures Walked(a, b, i + 1, j, aNoB + [a[i]], both, bNoA)
  {
    TakeOne(a, i);
    LessTotal(a[i], a[i]);
    if i + 1 < |a| {
      forall x | x in bNoA ensures Less(x, a[i + 1]) { BelowRest(a, i, x, i + 1); }
    }
  }

  /** The walk is symmetric, so the same holds of b. */
  lemma WalkRight(a: seq<string>, b: seq<string>, i: nat, j: nat, aNoB: seq<string>, both: seq<string>,
      bNoA: seq<string>)
    requires Sorted(b) && i <= |a| && j < |b| && (i < |a| ==> Less(b[j], a[i])) && Walked(a, b, i, j, aNoB, both, bNoA)
    ensures Walked(a, b, i, j + 1, aNoB, both, bNoA + [b[j]])
  {
    assert Walked(b, a, j, i, bNoA, both, aNoB);
    WalkLeft(b, a, j, i, bNoA, both, aNoB);
  }

  /** Past the end of b, what is left of a belongs to a alone. */
  lemma {:induction false} WalkRest(a: seq<string>, b: seq<string>, i: nat, aNoB: seq<string>, both: seq<string>,
      bNoA: seq<string>, all: seq<string>)
    requires Sorted(a) && i <= |a| && Walked(a, b, i, |b|, aNoB, both, bNoA) && all == aNoB + a[i..]
    ensures Walked(a, b, |a|, |b|, all, both, bNoA)
    decreases |a| - i
  {
    if i < |a| {
      assert all == aNoB + [a[i]] + a[i + 1..];
      WalkLeft(a, b, i, |b|, aNoB, both, bNoA);
      WalkRest(a, b, i + 1, aNoB + [a[i]], both, bNoA, all);
    } else {
      assert all == aNoB;
    }
  }

  /** Split of sorted lists: multiset differences and intersection. */
  method Split(a: seq<string>, b: seq<string>) returns (aNoB: seq<string>, aAndB: seq<string>, bNoA: seq<string>)
    requires Sorted(a) && Sorted(b)
    ensures multiset(aNoB) == multiset(a) - multiset(b)
    ensures multiset(aAndB) == multiset(a) * multiset(b)
    ensures multiset(bNoA) == multiset(b) - multiset(a)
  {
    aNoB, aAndB, bNoA := [], [], [];
    var i, j := 0, 0;
    while i < |a| && j < |b|
      invariant 0 <= i <= |a| && 0 <= j <= |b| && Walked(a, b, i, j, aNoB, aAndB, bNoA)
    {
      LessTotal(a[i], b[j]);
      if a[i] == b[j] {
        WalkBoth(a, b, i, j, aNoB, aAndB, bNoA);
        aAndB := aAndB + [a[i]];
        i, j := i + 1, j + 1;
      } else if Less(a[i], b[j]) {
        WalkLeft(a, b, i, j, aNoB, aAndB, bNoA);
        aNoB := aNoB + [a[i]];
        i := i + 1;
      } else {
        WalkRight(a, b, i, j, aNoB, aAndB, bNoA);
        bNoA := bNoA + [b[j]];
        j := j + 1;
      }
    }
    WalkOver(a, b, i, j, aNoB, aAndB, bNoA);
    if i < |a| {
      aNoB := aNoB + a[i..];
    }
    if j < |b| {
      bNoA := bNoA + b[j..];
    }
  }

  /** One list is used up and the rest of the other one is appended. */
  lemma WalkOver(a: seq<string>, b: seq<string>, i: nat, j: nat, aNoB: seq<string>, both: seq<string>,
      bNoA: seq<string>)
    requires Sorted(a) && Sorted(b) && i <= |a| && j <= |b| && (i == |a| || j == |b|)
        && Walked(a, b, i, j, aNoB, both, bNoA)
    ensures var left, right := if i < |a| then aNoB + a[i..] else aNoB, if j < |b| then bNoA + b[j..] else bNoA;
            && multiset(left) == multiset(a) - multiset(b) && multiset(both) == multiset(a) * multiset(b)
            && multiset(right) == multiset(b) - multiset(a)
  {
    if i < |a| {
      WalkRest(a, b, i, aNoB, both, bNoA, aNoB + a[i..]);
      WalkEnd(a, b, aNoB + a[i..], both, bNoA);
    } else if j < |b| {
      assert Walked(b, a, j, i, bNoA, both, aNoB);
      WalkRest(b, a, j, bNoA, both, aNoB, bNoA + b[j..]);
      WalkEnd(b, a, bNoA + b[j..], both, aNoB);
      assert multiset(a) * multiset(b) == multiset(b) * multiset(a);
    } else {
      WalkEnd(a, b, aNoB, both, bNoA);
    }
  }

  lemma WalkEnd(a: seq<string>, b: seq<string>, aNoB: seq<string>, both: seq<string>, bNoA: seq<string>)
    requires Walked(a, b, |a|, |b|, aNoB, both, bNoA)
    ensures multiset(aNoB) == multiset(a) - multiset(b) && multiset(both) == multiset(a) * multiset(b)
        && multiset(bNoA) == multiset(b) - multiset(a)
  {
    assert a[..|a|] == a && b[..|b|] == b;
    forall x
      ensures multiset(aNoB)[x] == 0 || multiset(bNoA)[x] == 0
    {
      assert x in multiset(aNoB) <==> x in aNoB;
      assert x in multiset(bNoA) <==> x in bNoA;
    }
  }

  // --------------------------------------------------------------------- scopes

  const SCOPE_SYSTEM := "system"
  const SCOPE_DOMAIN := "domain"
  const SCOPE_PROJECT := "project"
  const SCOPE_USER := "user"
  const SCOPE_NONE := "none"

  /** A string that is no known scope scores like none. */
  function Score(scope: string): nat
  {
    if scope == SCOPE_USER then 1 else if scope == SCOPE_PROJECT then 2 else if scope == SCOPE_DOMAIN then 3
    else if scope == SCOPE_SYSTEM then 4 else 0
  }

  datatype ShareInfo = ShareInfo(isPublic: bool, scope: string, domains: seq<string>, projects: seq<string>)

  /** A share as it is passed around: a copy of the struct on lists that others may hold too. */
  datatype ShareRef = ShareRef(isPublic: bool, scope: string, domains: array<string>, projects: array<string>)

  ghost function View(s: ShareRef): ShareInfo
    reads s.domains, s.projects
  {
    ShareInfo(s.isPublic, s.scope, s.domains[..], s.projects[..])
  }

  ghost predicate Within(a: seq<string>, b: seq<string>)
  {
    multiset(a) <= multiset(b)
  }

  /** The lexicographic comparison behind IsViolate: a shares no more than b. */
  ghost predicate NoMore(a: ShareInfo, b: ShareInfo)
  {
    if a.isPublic != b.isPublic then b.isPublic
    else if Score(a.scope) != Score(b.scope) then Score(a.scope) < Score(b.scope)
    else Within(a.domains, b.domains) && (Within(b.domains, a.domains) ==> Within(a.projects, b.projects))
  }

  lemma DiffEmpty(a: seq<string>, b: seq<string>, d: seq<string>)
    requires multiset(d) == multiset(a) - multiset(b)
    ensures d == [] <==> Within(a, b)
  {
    if d == [] {
      forall x
        ensures multiset(a)[x] <= multiset(b)[x]
      {
        assert (multiset(a) - multiset(b))[x] == 0;
      }
    } else {
      assert d[0] in multiset(d);
    }
  }

  /** How two string lists compare; both are sorted on the way, and may be one. */
  method Compare(x: array<string>, y: array<string>) returns (xNoY: bool, yNoX: bool)
    modifies x, y
    ensures multiset(x[..]) == multiset(old(x[..])) && multiset(y[..]) == multiset(old(y[..]))
    ensures xNoY <==> !Within(x[..], y[..])
    ensures yNoX <==> !Within(y[..], x[..])
  {
    NewSortedStrings(x);
    ghost var sx := x[..];
    NewSortedStrings(y);
    StillSorted(x, y, sx);
    var aNoB, _, bNoA := Split(x[..], y[..]);
    DiffEmpty(x[..], y[..], aNoB);
    DiffEmpty(y[..], x[..], bNoA);
    return |aNoB| > 0, |bNoA| > 0;
  }

  lemma StillSorted(x: array<string>, y: array<string>, sx: seq<string>)
    requires Sorted(y[..]) && Sorted(sx) && (x != y ==> x[..] == sx)
    ensures Sorted(x[..])
  {
  }

  /** A list keeps its elements when two lists are reordered, be it one of them or not. */
  twostate lemma Reordered(new z: array<string>, new x: array<string>, new y: array<string>)
    requires old(allocated(x)) && old(allocated(y)) && old(allocated(z))
    requires multiset(x[..]) == multiset(old(x[..])) && multiset(y[..]) == multiset(old(y[..]))
    requires z != x && z != y ==> z[..] == old(z[..])
    ensures multiset(z[..]) == multiset(old(z[..]))
  {
  }

  /** Compare on two pairs of lists, the second pair only if the first one is equal. */
  method CompareLists(a: ShareRef, b: ShareRef) returns (r: bool)
    modifies a.domains, b.domains, a.projects, b.projects
    ensures r <==> !(Within(old(a.domains[..]), old(b.domains[..]))
                     && (Within(old(b.domains[..]), old(a.domains[..])) ==>
                         Within(old(a.projects[..]), old(b.projects[..]))))
    ensures multiset(a.domains[..]) == multiset(old(a.domains[..]))
        && multiset(b.domains[..]) == multiset(old(b.domains[..]))
    ensures multiset(a.projects[..]) == multiset(old(a.projects[..]))
        && multiset(b.projects[..]) == multiset(old(b.projects[..]))
  {
    var aNoB, bNoA := Compare(a.domains, b.domains);
    Reordered(a.projects, a.domains, b.domains);
    Reordered(b.projects, a.domains, b.domains);
    if aNoB {
      return true;
    } else if bNoA {
      return false;
    }
    label Between:
    aNoB, bNoA := Compare(a.projects, b.projects);
    Reordered@Between(a.domains, a.projects, b.projects);
    Reordered@Between(b.domains, a.projects, b.projects);
    return aNoB;
  }

  /** IsViolate compares by the order of shares and leaves lists sorted, which changes no share. */
  method IsViolate(a: ShareRef, b: ShareRef) returns (r: bool)
    modifies a.domains, b.domains, a.projects, b.projects
    ensures r <==> !NoMore(old(View(a)), old(View(b)))
    ensures Same(View(a), old(View(a))) && Same(View(b), old(View(b)))
  {
    if a.isPublic && !b.isPublic {
      return true;
    } else if !a.isPublic && b.isPublic {
      return false;
    }
    if Score(a.scope) > Score(b.scope) {
      return true;
    } else if Score(b.scope) > Score(a.scope) {
      return false;
    }
    r := CompareLists(a, b);
  }

  method Equals(a: ShareRef, b: ShareRef) returns (r: bool)
    modifies a.domains, b.domains, a.projects, b.projects
    ensures r <==> Same(old(View(a)), old(View(b)))
    ensures Same(View(a), old(View(a))) && Same(View(b), old(View(b)))
  {
    var ab := IsViolate(a, b);
    ghost var a1, b1 := View(a), View(b);
    var ba := IsViolate(b, a);
    SameNoMore(b1, old(View(b)), a1, old(View(a)));
    SameExact(old(View(a)), old(View(b)));
    r := !ab && !ba;
  }

  /** The order does not tell same shares apart. */
  lemma SameNoMore(a: ShareInfo, a': ShareInfo, b: ShareInfo, b': ShareInfo)
    requires Same(a, a') && Same(b, b')
    ensures NoMore(a, b) <==> NoMore(a', b')
  {
  }

  /** Equal up to scopes of one score and the order of lists. */
  ghost predicate Same(a: ShareInfo, b: ShareInfo)
  {
    && a.isPublic == b.isPublic && Score(a.scope) == Score(b.scope)
    && multiset(a.domains) == multiset(b.domains) && multiset(a.projects) == multiset(b.projects)
  }

  /** Antisymmetry: mutual non-violation is exactly sameness. */
  lemma SameExact(a: ShareInfo, b: ShareInfo)
    ensures NoMore(a, b) && NoMore(b, a) <==> Same(a, b)
  {
  }

  lemma NoMoreReflexive(a: ShareInfo)
    ensures NoMore(a, a)
  {
  }

  lemma NoMoreTransitive(a: ShareInfo, b: ShareInfo, c: ShareInfo)
    requires NoMore(a, b) && NoMore(b, c)
    ensures NoMore(a, c)
  {
  }

  // ------------------------------------------------------------- the scope chain

  /** The scopes from the narrowest to the widest. */
  const CHAIN := ["none", "user", "project", "domain", "system"]

  /** Scope x comes strictly before scope y in the chain, where any other string counts as none. */
  ghost predicate Narrower(x: string, y: string)
  {
    exists i, j :: 0 <= i < j < |CHAIN| && (CHAIN[i] == x || (i == 0 && x !in CHAIN)) && CHAIN[j] == y
  }

  lemma ScoreInChain(x: string, i: nat)
    requires i < |CHAIN| && (CHAIN[i] == x || (i == 0 && x !in CHAIN))
    ensures Score(x) == i
  {
    assert CHAIN[0] == "none" && CHAIN[1] == "user" && CHAIN[2] == "project" && CHAIN[3] == "domain"
        && CHAIN[4] == "system";
  }

  /** Scores order scopes as the chain does. */
  lemma ChainExact(x: string, y: string)
    ensures Narrower(x, y) <==> Score(x) < Score(y)
  {
    var i := if x in CHAIN then PlaceOf(x) else 0;
    var j := if y in CHAIN then PlaceOf(y) else 0;
    ScoreInChain(x, i);
    ScoreInChain(y, j);
    if i < j {
      assert (CHAIN[i] == x || (i == 0 && x !in CHAIN)) && CHAIN[j] == y;
    }
    if Narrower(x, y) {
      var i', j' :| 0 <= i' < j' < |CHAIN| && (CHAIN[i'] == x || (i' == 0 && x !in CHAIN)) && CHAIN[j'] == y;
      ScoreInChain(x, i');
      ScoreInChain(y, j');
    }
  }

  ghost function PlaceOf(x: string): (i: nat)
    requires x in CHAIN
    ensures i < |CHAIN| && CHAIN[i] == x
  {
    var i :| 0 <= i < |CHAIN| && CHAIN[i] == x;
    i
  }

  /** Some string is listed more often in a than in b. */
  ghost predicate ListsMore(a: seq<string>, b: seq<string>)
  {
    exists x :: multiset(a)[x] > multiset(b)[x]
  }

  lemma WithinExact(a: seq<string>, b: seq<string>)
    ensures Within(a, b) <==> !ListsMore(a, b)
  {
    if !ListsMore(a, b) {
      forall x
        ensures multiset(a)[x] <= multiset(b)[x]
      {
      }
    }
  }

  /**
   When a share violates another: visibility decides first, then the scope chain, then the domain lists, and the project
   lists only between equal domain lists.
   */
  lemma ViolateExact(a: ShareInfo, b: ShareInfo)
    ensures !NoMore(a, b) <==>
              || (a.isPublic && !b.isPublic)
              || (a.isPublic == b.isPublic && Narrower(b.scope, a.scope))
              || (a.isPublic == b.isPublic && !Narrower(a.scope, b.scope) && ListsMore(a.domains, b.domains))
              || (a.isPublic == b.isPublic && !Narrower(a.scope, b.scope) && multiset(a.domains) == multiset(b.domains)
                  && ListsMore(a.projects, b.projects))
  {
    ChainExact(a.scope, b.scope);
    ChainExact(b.scope, a.scope);
    WithinExact(a.domains, b.domains);
    WithinExact(b.domains, a.domains);
    WithinExact(a.projects, b.projects);
  }

  /** Between public shares with the same lists, the wider scope violates the narrower one and nothing else does. */
  lemma ViolateByScope(a: ShareInfo, b: ShareInfo)
    requires a.isPublic && b.isPublic && a.domains == b.domains && a.projects == b.projects
    ensures !NoMore(a, b) <==> Narrower(b.scope, a.scope)
  {
    ChainExact(a.scope, b.scope);
    ChainExact(b.scope, a.scope);
  }

  /** Shares are the same exactly when neither scope is narrower and the lists agree. */
  lemma SameByChain(a: ShareInfo, b: ShareInfo)
    ensures Same(a, b) <==>
              && a.isPublic == b.isPublic && !Narrower(a.scope, b.scope) && !Narrower(b.scope, a.scope)
              && multiset(a.domains) == multiset(b.domains) && multiset(a.projects) == multiset(b.projects)
  {
    ChainExact(a.scope, b.scope);
    ChainExact(b.scope, a.scope);
  }

  // ------------------------------------------------------------------ intersect

  /** An intersection that keeps project scope but shares with no project is not public. */
  ghost predicate Resets(a: ShareInfo, b: ShareInfo)
  {
    a.scope == SCOPE_PROJECT && multiset(a.projects) * multiset(b.projects) == multiset{}
  }

  /** What Intersect returns, up to the order of lists. */
  ghost predicate IsIntersection(a: ShareInfo, b: ShareInfo, r: ShareInfo)
  {
    if a.isPublic != b.isPublic then r == if a.isPublic then b else a
    else if Score(a.scope) != Score(b.scope) then r == if Score(a.scope) > Score(b.scope) then b else a
    else
      && multiset(r.domains) == multiset(a.domains) * multiset(b.domains)
      && multiset(r.projects) == multiset(a.projects) * multiset(b.projects)
      && (if Resets(a, b) then !r.isPublic && r.scope == SCOPE_NONE else r.isPublic == a.isPublic && r.scope == a.scope)
  }

  method CommonPart(x: array<string>, y: array<string>) returns (r: array<string>)
    modifies x, y
    ensures multiset(x[..]) == multiset(old(x[..])) && multiset(y[..]) == multiset(old(y[..]))
    ensures fresh(r) && multiset(r[..]) == multiset(x[..]) * multiset(y[..])
  {
    NewSortedStrings(x);
    ghost var sx := x[..];
    NewSortedStrings(y);
    StillSorted(x, y, sx);
    var _, aAndB, _ := Split(x[..], y[..]);
    r := new string[|aAndB|](i requires 0 <= i < |aAndB| => aAndB[i]);
    assert r[..] == aAndB;
  }

  method CommonLists(a: ShareRef, b: ShareRef) returns (domains: array<string>, projs: array<string>)
    modifies a.domains, b.domains, a.projects, b.projects
    ensures fresh(domains) && fresh(projs) && domains != projs
    ensures multiset(domains[..]) == multiset(old(a.domains[..])) * multiset(old(b.domains[..]))
    ensures multiset(projs[..]) == multiset(old(a.projects[..])) * multiset(old(b.projects[..]))
    ensures multiset(a.domains[..]) == multiset(old(a.domains[..]))
        && multiset(b.domains[..]) == multiset(old(b.domains[..]))
    ensures multiset(a.projects[..]) == multiset(old(a.projects[..]))
        && multiset(b.projects[..]) == multiset(old(b.projects[..]))
  {
    domains := CommonPart(a.domains, b.domains);
    Reordered(a.projects, a.domains, b.domains);
    Reordered(b.projects, a.domains, b.domains);
    label Between:
    projs := CommonPart(a.projects, b.projects);
    Reordered@Between(a.domains, a.projects, b.projects);
    Reordered@Between(b.domains, a.projects, b.projects);
  }

  method Intersect(a: ShareRef, b: ShareRef) returns (r: ShareRef)
    modifies a.domains, b.domains, a.projects, b.projects
    ensures IsIntersection(old(View(a)), old(View(b)), View(r))
    ensures Same(View(a), old(View(a))) && Same(View(b), old(View(b)))
  {
    if a.isPublic && !b.isPublic {
      return b;
    } else if !a.isPublic && b.isPublic {
      return a;
    }
    if Score(a.scope) > Score(b.scope) {
      return b;
    } else if Score(b.scope) > Score(a.scope) {
      return a;
    }
    var domains, projs := CommonLists(a, b);
    r := ShareRef(a.isPublic, a.scope, domains, projs);
    NoneCommon(projs[..], old(a.projects[..]), old(b.projects[..]));
    if r.scope == SCOPE_PROJECT && r.projects.Length == 0 {
      r := r.(isPublic := false, scope := SCOPE_NONE);
    }
  }

  lemma NoneCommon(r: seq<string>, x: seq<string>, y: seq<string>)
    requires multiset(r) == multiset(x) * multiset(y)
    ensures |r| == 0 <==> multiset(x) * multiset(y) == multiset{}
  {
    assert |multiset(r)| == |r|;
  }

  /** Of two public shares the intersection is the one with the narrower scope, and nothing is dropped from it. */
  lemma IntersectByScope(a: ShareInfo, b: ShareInfo, r: ShareInfo)
    requires a.isPublic == b.isPublic && IsIntersection(a, b, r)
    ensures Narrower(a.scope, b.scope) ==> r == a
    ensures Narrower(b.scope, a.scope) ==> r == b
    ensures !Narrower(a.scope, b.scope) && !Narrower(b.scope, a.scope) ==>
              multiset(r.domains) == multiset(a.domains) * multiset(b.domains)
              && multiset(r.projects) == multiset(a.projects) * multiset(b.projects)
  {
    ChainExact(a.scope, b.scope);
    ChainExact(b.scope, a.scope);
  }

  /** The reset, spelled out: at project scope on both sides with no project in common the result is private. */
  lemma IntersectResets(a: ShareInfo, b: ShareInfo, r: ShareInfo)
    requires a.isPublic == b.isPublic && !Narrower(a.scope, b.scope) && !Narrower(b.scope, a.scope)
    requires IsIntersection(a, b, r)
    ensures if a.scope == "project" && (forall x :: x in a.projects ==> x !in b.projects)
            then r.isPublic == false && r.scope == "none"
            else r.isPublic == a.isPublic && r.scope == a.scope
  {
    ChainExact(a.scope, b.scope);
    ChainExact(b.scope, a.scope);
    if forall x :: x in a.projects ==> x !in b.projects {
      forall x
        ensures (multiset(a.projects) * multiset(b.projects))[x] == 0
      {
        assert x in multiset(a.projects) <==> x in a.projects;
        assert x in multiset(b.projects) <==> x in b.projects;
      }
    } else {
      var x :| x in a.projects && x in b.projects;
      assert x in multiset(a.projects) && x in multiset(b.projects);
      assert (multiset(a.projects) * multiset(b.projects))[x] > 0;
    }
  }

  /** The intersection shares no more than either argument, the project-scope reset included. */
  lemma IntersectBelow(a: ShareInfo, b: ShareInfo, r: ShareInfo)
    requires IsIntersection(a, b, r)
    ensures NoMore(r, a) && NoMore(r, b)
  {
  }

  lemma IntersectCommutes(a: ShareInfo, b: ShareInfo, r: ShareInfo, r': ShareInfo)
    requires IsIntersection(a, b, r) && IsIntersection(b, a, r')
    ensures Same(r, r')
  {
    assert multiset(a.projects) * multiset(b.projects) == multiset(b.projects) * multiset(a.projects);
    assert multiset(a.domains) * multiset(b.domains) == multiset(b.domains) * multiset(a.domains);
  }

  /** Sharing with oneself changes nothing, except where the reset strikes. */
  lemma IntersectSelf(a: ShareInfo, r: ShareInfo)
    requires IsIntersection(a, a, r)
    ensures Same(r, a) <==> !(a.scope == SCOPE_PROJECT && a.projects == [])
  {
    assert multiset(a.projects) * multiset(a.projects) == multiset(a.projects);
    assert multiset(a.domains) * multiset(a.domains) == multiset(a.domains);
    if a.projects != [] {
      assert multiset(a.projects)[a.projects[0]] > 0;
    }
  }

  /** r bounds everything that shares no more than a and no more than b. */
  ghost predicate IsGreatest(a: ShareInfo, b: ShareInfo, r: ShareInfo)
  {
    forall x {:trigger NoMore(x, r)} :: NoMore(x, a) && NoMore(x, b) ==> NoMore(x, r)
  }

  /** Domain lists that do not compete with project lists for the lexicographic order. */
  ghost predicate Aligned(a: ShareInfo, b: ShareInfo)
  {
    || multiset(a.domains) == multiset(b.domains)
    || (Within(a.domains, b.domains) && Within(a.projects, b.projects))
    || (Within(b.domains, a.domains) && Within(b.projects, a.projects))
  }

  /**
   Intersect is the greatest lower bound of the order exactly when the arguments differ in visibility or score, or
   when there is no reset and the lists are aligned; elsewhere some share below both is not below the result.
   */
  lemma IntersectGreatest(a: ShareInfo, b: ShareInfo, r: ShareInfo)
    requires IsIntersection(a, b, r)
    ensures IsGreatest(a, b, r) <==>
              a.isPublic != b.isPublic || Score(a.scope) != Score(b.scope) || (!Resets(a, b) && Aligned(a, b))
  {
    if a.isPublic == b.isPublic && Score(a.scope) == Score(b.scope) {
      if Resets(a, b) {
        assert !NoMore(ShareInfo(a.isPublic, a.scope, r.domains, []), r);
      } else if Aligned(a, b) {
        AlignedGreatest(a, b, r);
      } else {
        NotAligned(a, b, r);
      }
    }
  }

  lemma AlignedGreatest(a: ShareInfo, b: ShareInfo, r: ShareInfo)
    requires IsIntersection(a, b, r) && a.isPublic == b.isPublic && Score(a.scope) == Score(b.scope) && !Resets(a, b)
        && Aligned(a, b)
    ensures IsGreatest(a, b, r)
  {
    forall x | NoMore(x, a) && NoMore(x, b)
      ensures NoMore(x, r)
    {
      if x.isPublic == a.isPublic && Score(x.scope) == Score(a.scope) {
        BelowBoth(a, b, r, x);
      }
    }
  }

  /** A list common to both bounds is within their intersection. */
  lemma BelowBoth(a: ShareInfo, b: ShareInfo, r: ShareInfo, x: ShareInfo)
    requires multiset(r.domains) == multiset(a.domains) * multiset(b.domains)
    requires multiset(r.projects) == multiset(a.projects) * multiset(b.projects) && Aligned(a, b)
    requires Within(x.domains, a.domains) && (Within(a.domains, x.domains) ==> Within(x.projects, a.projects))
    requires Within(x.domains, b.domains) && (Within(b.domains, x.domains) ==> Within(x.projects, b.projects))
    ensures Within(x.domains, r.domains) && (Within(r.domains, x.domains) ==> Within(x.projects, r.projects))
  {
    if Within(r.domains, x.domains) {
      if Within(a.domains, b.domains) {
        assert multiset(r.domains) == multiset(a.domains);
      }
      if Within(b.domains, a.domains) {
        assert multiset(r.domains) == multiset(b.domains);
      }
    }
  }

  lemma NotAligned(a: ShareInfo, b: ShareInfo, r: ShareInfo)
    requires IsIntersection(a, b, r) && a.isPublic == b.isPublic && Score(a.scope) == Score(b.scope) && !Resets(a, b)
        && !Aligned(a, b)
    ensures !IsGreatest(a, b, r)
  {
    if Within(a.domains, b.domains) {
      assert NoMore(a, a) && NoMore(a, b) && !NoMore(a, r);
    } else if Within(b.domains, a.domains) {
      assert NoMore(b, a) && NoMore(b, b) && !NoMore(b, r);
    } else {
      var x := ShareInfo(a.isPublic, a.scope, r.domains, r.projects + ["x"]);
      assert multiset(x.projects)["x"] == multiset(r.projects)["x"] + 1;
      assert NoMore(x, a) && NoMore(x, b) && !NoMore(x, r);
    }
  }
}
