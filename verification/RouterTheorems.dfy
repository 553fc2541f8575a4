/** The router's promises, for every trie built by any sequence of Adds and for every request. */
module RouterTheorems {
  import opened Wrappers
  import opened Tries
  import opened RouterRefinement
  import opened RouterChoice

  // ------------------------------------------------------------- on the table

  lemma FitsTail(k: Key, keys: seq<Key>, segs: seq<string>, matches: Matcher)
    requires segs != []
    ensures Fits([k] + keys, segs, matches) <==> KeyFits(k, segs[0], matches) && Fits(keys, segs[1..], matches)
  {
    var all := [k] + keys;
    if Fits(all, segs, matches) {
      assert all[0] == k;
      forall i | 0 <= i < |keys|
        ensures KeyFits(keys[i], segs[1..][i], matches)
      {
        assert all[i + 1] == keys[i];
      }
    }
  }

  /** What is chosen is in the table and fits; a false flag means a proper prefix. */
  lemma {:induction false} FlatSound<D>(tbl: seq<Entry<D>>, segs: seq<string>, matches: Matcher) returns (e: Entry<D>)
    requires FlatMatch(tbl, segs, matches).route.Some?
    ensures e in tbl && FlatMatch(tbl, segs, matches).route == Some(e.route) && Fits(e.rest, segs, matches)
    ensures !FlatMatch(tbl, segs, matches).full ==> |e.rest| < |segs|
    decreases |segs|, 1, 0
  {
    OwnIff(tbl);
    if segs == [] {
      e := Entry([], Own(tbl).value);
    } else if FlatMatch(Below(tbl, Lit(segs[0])), segs[1..], matches).route.Some? {
      var e1 := FlatSound(Below(tbl, Lit(segs[0])), segs[1..], matches);
      e := Lift(tbl, Lit(segs[0]), e1, segs, matches);
    } else if FirstYield(tbl, RegOrder(tbl), segs, matches, true).Some? {
      e := YieldSound(tbl, RegOrder(tbl), segs, matches, true);
    } else if FirstYield(tbl, RegOrder(tbl), segs, matches, false).Some? {
      e := YieldSound(tbl, RegOrder(tbl), segs, matches, false);
    } else {
      e := Entry([], Own(tbl).value);
    }
  }

  lemma Lift<D>(tbl: seq<Entry<D>>, k: Key, e1: Entry<D>, segs: seq<string>, matches: Matcher) returns (e: Entry<D>)
    requires segs != [] && e1 in Below(tbl, k) && KeyFits(k, segs[0], matches) && Fits(e1.rest, segs[1..], matches)
    ensures e == Entry([k] + e1.rest, e1.route) && e in tbl && Fits(e.rest, segs, matches)
  {
    e := Entry([k] + e1.rest, e1.route);
    BelowMembers(tbl, k, e1);
    FitsTail(k, e1.rest, segs, matches);
  }

  lemma {:induction false} YieldSound<D>(tbl: seq<Entry<D>>, order: seq<string>, segs: seq<string>, matches: Matcher,
      wantFull: bool) returns (e: Entry<D>)
    requires segs != [] && FirstYield(tbl, order, segs, matches, wantFull).Some?
    ensures e in tbl && FirstYield(tbl, order, segs, matches, wantFull) == Some(e.route) && Fits(e.rest, segs, matches)
    ensures !wantFull ==> |e.rest| < |segs|
    decreases |segs|, 0, |order|
  {
    var sub := Below(tbl, Reg(order[0]));
    var c := FlatMatch(sub, segs[1..], matches);
    if matches(order[0], segs[0]) && c.route.Some? && c.full == wantFull {
      var e1 := FlatSound(sub, segs[1..], matches);
      e := Lift(tbl, Reg(order[0]), e1, segs, matches);
    } else {
      e := YieldSound(tbl, order[1..], segs, matches, wantFull);
    }
  }

  /** Whenever an entry fits, something is chosen. */
  lemma {:induction false} FlatComplete<D>(tbl: seq<Entry<D>>, segs: seq<string>, matches: Matcher, e: Entry<D>)
    requires e in tbl && Fits(e.rest, segs, matches)
    ensures FlatMatch(tbl, segs, matches).route.Some?
    decreases |segs|
  {
    OwnIff(tbl);
    if e.rest != [] {
      var k, tail := e.rest[0], Entry(e.rest[1..], e.route);
      assert e.rest == [k] + tail.rest;
      BelowMembers(tbl, k, tail);
      FitsTail(k, tail.rest, segs, matches);
      FlatComplete(Below(tbl, k), segs[1..], matches, tail);
      if k.Reg? {
        BelowInhabited(tbl, k);
        YieldComplete(tbl, RegOrder(tbl), segs, matches, k.regStr);
      }
    }
  }

  lemma {:induction false} YieldComplete<D>(tbl: seq<Entry<D>>, order: seq<string>, segs: seq<string>,
      matches: Matcher, r: string)
    requires segs != [] && r in order && matches(r, segs[0])
    requires FlatMatch(Below(tbl, Reg(r)), segs[1..], matches).route.Some?
    ensures FirstYield(tbl, order, segs, matches, true).Some? || FirstYield(tbl, order, segs, matches, false).Some?
  {
    if order[0] != r {
      YieldComplete(tbl, order[1..], segs, matches, r);
    }
  }

  ghost predicate OnlyLiterals<D>(tbl: seq<Entry<D>>)
  {
    forall e, i :: e in tbl && 0 <= i < |e.rest| ==> e.rest[i].Lit?
  }

  lemma LiteralsBelow<D>(tbl: seq<Entry<D>>, k: Key)
    requires OnlyLiterals(tbl)
    ensures OnlyLiterals(Below(tbl, k))
  {
    forall e, i | e in Below(tbl, k) && 0 <= i < |e.rest|
      ensures e.rest[i].Lit?
    {
      BelowMembers(tbl, k, e);
      assert ([k] + e.rest)[i + 1] == e.rest[i];
    }
  }

  lemma NoRegs<D>(tbl: seq<Entry<D>>)
    requires OnlyLiterals(tbl)
    ensures RegOrder(tbl) == []
  {
    if RegOrder(tbl) != [] {
      var k := Reg(RegOrder(tbl)[0]);
      BelowInhabited(tbl, k);
      var e := Below(tbl, k)[0];
      assert ([k] + e.rest)[0] == k;
      BelowMembers(tbl, k, e);
    }
  }

  /** With literal routes only, the chosen route is a longest one that fits. */
  lemma {:induction false} FlatLongest<D>(tbl: seq<Entry<D>>, segs: seq<string>, matches: Matcher, other: Entry<D>)
      returns (e: Entry<D>)
    requires OnlyLiterals(tbl) && other in tbl && Fits(other.rest, segs, matches)
    ensures e in tbl && FlatMatch(tbl, segs, matches).route == Some(e.route) && Fits(e.rest, segs, matches)
    ensures |other.rest| <= |e.rest|
    decreases |segs|
  {
    OwnIff(tbl);
    FlatComplete(tbl, segs, matches, other);
    NoRegs(tbl);
    if other.rest == [] {
      e := FlatSound(tbl, segs, matches);
    } else {
      var k, tail := other.rest[0], Entry(other.rest[1..], other.route);
      assert other.rest == [k] + tail.rest;
      BelowMembers(tbl, k, tail);
      FitsTail(k, tail.rest, segs, matches);
      LiteralsBelow(tbl, k);
      var e1 := FlatLongest(Below(tbl, k), segs[1..], matches, tail);
      e := Lift(tbl, k, e1, segs, matches);
    }
  }

  // ----------------------------------------------------------------- the flag

  /** The keys use up the request or hold a literal: what match calls a full match. */
  predicate CountsFull(keys: seq<Key>, segs: seq<string>)
  {
    |keys| == |segs| || exists j :: 0 <= j < |keys| && keys[j].Lit?
  }

  lemma CountsFullTail(k: Key, keys: seq<Key>, segs: seq<string>)
    requires segs != []
    ensures CountsFull([k] + keys, segs) <==> k.Lit? || CountsFull(keys, segs[1..])
  {
    var all := [k] + keys;
    assert all[0] == k && forall j :: 0 <= j < |keys| ==> keys[j] == all[j + 1];
  }

  /** A route flagged full uses up the request or holds a literal. */
  lemma {:induction false} FullSound<D>(tbl: seq<Entry<D>>, segs: seq<string>, matches: Matcher) returns (e: Entry<D>)
    requires FlatMatch(tbl, segs, matches).route.Some? && FlatMatch(tbl, segs, matches).full
    ensures e in tbl && Fits(e.rest, segs, matches) && CountsFull(e.rest, segs)
    decreases |segs|, 1, 0
  {
    if segs == [] {
      OwnIff(tbl);
      e := Entry([], Own(tbl).value);
    } else if FlatMatch(Below(tbl, Lit(segs[0])), segs[1..], matches).route.Some? {
      var e1 := FlatSound(Below(tbl, Lit(segs[0])), segs[1..], matches);
      e := Lift(tbl, Lit(segs[0]), e1, segs, matches);
      CountsFullTail(Lit(segs[0]), e1.rest, segs);
    } else {
      e := YieldFullSound(tbl, RegOrder(tbl), segs, matches);
    }
  }

  lemma {:induction false} YieldFullSound<D>(tbl: seq<Entry<D>>, order: seq<string>, segs: seq<string>,
      matches: Matcher)
    returns (e: Entry<D>)
    requires segs != [] && FirstYield(tbl, order, segs, matches, true).Some?
    ensures e in tbl && Fits(e.rest, segs, matches) && CountsFull(e.rest, segs)
    decreases |segs|, 0, |order|
  {
    var sub := Below(tbl, Reg(order[0]));
    var c := FlatMatch(sub, segs[1..], matches);
    if matches(order[0], segs[0]) && c.route.Some? && c.full {
      var e1 := FullSound(sub, segs[1..], matches);
      e := Lift(tbl, Reg(order[0]), e1, segs, matches);
      CountsFullTail(Reg(order[0]), e1.rest, segs);
    } else {
      e := YieldFullSound(tbl, order[1..], segs, matches);
    }
  }

  /** Whenever a route fits and uses up the request or holds a literal, the choice is flagged full. */
  lemma {:induction false} FullComplete<D>(tbl: seq<Entry<D>>, segs: seq<string>, matches: Matcher, e: Entry<D>)
    requires e in tbl && Fits(e.rest, segs, matches) && CountsFull(e.rest, segs)
    ensures FlatMatch(tbl, segs, matches).route.Some? && FlatMatch(tbl, segs, matches).full
    decreases |segs|
  {
    FlatComplete(tbl, segs, matches, e);
    if segs != [] {
      var k, tail := e.rest[0], Entry(e.rest[1..], e.route);
      assert e.rest == [k] + tail.rest;
      BelowMembers(tbl, k, tail);
      FitsTail(k, tail.rest, segs, matches);
      CountsFullTail(k, tail.rest, segs);
      if k.Lit? {
        FlatComplete(Below(tbl, k), segs[1..], matches, tail);
      } else {
        FullComplete(Below(tbl, k), segs[1..], matches, tail);
        BelowInhabited(tbl, k);
        YieldFullComplete(tbl, RegOrder(tbl), segs, matches, k.regStr);
      }
    }
  }

  lemma {:induction false} YieldFullComplete<D>(tbl: seq<Entry<D>>, order: seq<string>, segs: seq<string>,
                                                matches: Matcher, r: string)
    requires segs != [] && r in order && matches(r, segs[0])
    requires FlatMatch(Below(tbl, Reg(r)), segs[1..], matches).route.Some?
    requires FlatMatch(Below(tbl, Reg(r)), segs[1..], matches).full
    ensures FirstYield(tbl, order, segs, matches, true).Some?
  {
    if order[0] != r {
      YieldFullComplete(tbl, order[1..], segs, matches, r);
    }
  }

  // ---------------------------------------------------------------- the siblings

  /** What is found below the regexp r. */
  ghost function Answer<D>(tbl: seq<Entry<D>>, r: string, segs: seq<string>, matches: Matcher): Choice<D>
    requires segs != []
  {
    FlatMatch(Below(tbl, Reg(r)), segs[1..], matches)
  }

  /** The regexp r matches the first segment and finds a route below it with the wanted flag. */
  ghost predicate Yields<D>(tbl: seq<Entry<D>>, r: string, segs: seq<string>, matches: Matcher, full: bool)
    requires segs != []
  {
    var c := Answer(tbl, r, segs, matches);
    matches(r, segs[0]) && c.route.Some? && c.full == full
  }

  /** Among regexp siblings the first one in the order that yields wins. */
  lemma {:induction false} YieldFirst<D>(tbl: seq<Entry<D>>, order: seq<string>, segs: seq<string>, matches: Matcher,
      full: bool)
    returns (j: nat)
    requires segs != []
    ensures j <= |order| && (forall i :: 0 <= i < j ==> !Yields(tbl, order[i], segs, matches, full))
    ensures FirstYield(tbl, order, segs, matches, full).None? <==> j == |order|
    ensures j < |order| ==> Yields(tbl, order[j], segs, matches, full)
    ensures j < |order| ==> FirstYield(tbl, order, segs, matches, full) == Answer(tbl, order[j], segs, matches).route
  {
    j := 0;
    if order != [] {
      FirstOrRest(tbl, order, segs, matches, full);
      if !Yields(tbl, order[0], segs, matches, full) {
        var rest := YieldFirst(tbl, order[1..], segs, matches, full);
        j := rest + 1;
        forall i | 0 <= i < j
          ensures !Yields(tbl, order[i], segs, matches, full)
        {
          assert i > 0 ==> order[i] == order[1..][i - 1];
        }
      }
    }
  }

  lemma FirstOrRest<D>(tbl: seq<Entry<D>>, order: seq<string>, segs: seq<string>, matches: Matcher, full: bool)
    requires segs != [] && order != []
    ensures Yields(tbl, order[0], segs, matches, full) ==>
              FirstYield(tbl, order, segs, matches, full) == Answer(tbl, order[0], segs, matches).route
    ensures !Yields(tbl, order[0], segs, matches, full) ==>
              FirstYield(tbl, order, segs, matches, full) == FirstYield(tbl, order[1..], segs, matches, full)
  {
  }

  ghost predicate BeginsWith<D>(e: Entry<D>, r: string)
  {
    e.rest != [] && e.rest[0] == Reg(r)
  }

  /** The order of regexp siblings: by the first route that begins with each of them. */
  lemma {:induction false} RegOrderFirst<D>(tbl: seq<Entry<D>>, r: string) returns (p: nat)
    requires r in RegOrder(tbl)
    ensures p < |tbl| && BeginsWith(tbl[p], r) && forall q :: 0 <= q < p ==> !BeginsWith(tbl[q], r)
  {
    var last := |tbl| - 1;
    if r in RegOrder(tbl[..last]) {
      p := RegOrderFirst(tbl[..last], r);
    } else {
      p := last;
      forall q | 0 <= q < p
        ensures !BeginsWith(tbl[q], r)
      {
        RegOrderHas(tbl[..last], q, r);
      }
    }
  }

  lemma {:induction false} RegOrderHas<D>(tbl: seq<Entry<D>>, q: nat, r: string)
    requires q < |tbl|
    ensures BeginsWith(tbl[q], r) ==> r in RegOrder(tbl)
  {
    if q < |tbl| - 1 {
      RegOrderHas(tbl[..|tbl| - 1], q, r);
    }
  }

  lemma {:induction false} RegOrderSorted<D>(tbl: seq<Entry<D>>, i: nat, j: nat, p: nat, q: nat)
    requires i < j < |RegOrder(tbl)| && p < |tbl| && q < |tbl|
    requires BeginsWith(tbl[p], RegOrder(tbl)[i]) && (forall x :: 0 <= x < p ==> !BeginsWith(tbl[x], RegOrder(tbl)[i]))
    requires BeginsWith(tbl[q], RegOrder(tbl)[j])
    ensures p < q
  {
    var last := |tbl| - 1;
    var front := RegOrder(tbl[..last]);
    RegOrderDistinct(tbl);
    if j < |front| {
      if q < last {
        var p' := RegOrderFirst(tbl[..last], front[i]);
        assert p' == p;
        RegOrderSorted(tbl[..last], i, j, p, q);
      } else {
        var p' := RegOrderFirst(tbl[..last], front[i]);
        assert BeginsWith(tbl[p'], RegOrder(tbl)[i]);
      }
    } else {
      var p' := RegOrderFirst(tbl[..last], front[i]);
      assert BeginsWith(tbl[p'], RegOrder(tbl)[i]) && p <= p';
      if q < last {
        RegOrderHas(tbl[..last], q, RegOrder(tbl)[j]);
      }
    }
  }

  // ------------------------------------------------------- any sequence of Adds

  datatype Registration<D> = Registration(segs: seq<string>, data: D)

  function Build<D>(adds: seq<Registration<D>>): Trie<D>
  {
    if adds == [] then EmptyTrie()
    else
      var last := adds[|adds| - 1];
      Add(Build(adds[..|adds| - 1]), last.segs, Some(last.data), 1, map[]).trie
  }

  /** Index to name for every regexp segment of a pattern. */
  function SegNames(segs: seq<string>): map<nat, string>
  {
    map i: nat | i < |segs| && IsRegexSegment(segs[i]) :: NameOf(segs[i])
  }

  function RouteOf<D>(r: Registration<D>): Route<D>
  {
    Route(KeysOf(r.segs), r.data, SegNames(r.segs))
  }

  /** The accepted registrations: the first one for each list of keys. */
  ghost function Table<D>(adds: seq<Registration<D>>): seq<Entry<D>>
  {
    if adds == [] then []
    else
      var tbl, route := Table(adds[..|adds| - 1]), RouteOf(adds[|adds| - 1]);
      if HasRest(tbl, route.keys) then tbl else tbl + [Entry(route.keys, route)]
  }

  lemma {:induction false} NamesMeaning(names: map<nat, string>, segs: seq<string>, depth: nat, j: nat)
    requires depth > 0
    ensures var r := NamesFrom(names, segs, depth);
            if depth - 1 <= j < depth - 1 + |segs| && IsRegexSegment(segs[j - (depth - 1)])
            then j in r && r[j] == NameOf(segs[j - (depth - 1)])
            else (j in r <==> j in names) && (j in r ==> r[j] == names[j])
    decreases |segs|
  {
    if segs != [] {
      NamesMeaning(NamesAfter(names, segs[0], depth), segs[1..], depth + 1, j);
    }
  }

  lemma StoredNames(segs: seq<string>)
    ensures NamesFrom(map[], segs, 1) == SegNames(segs)
  {
    forall j: nat
      ensures j in NamesFrom(map[], segs, 1) <==> j in SegNames(segs)
      ensures j in SegNames(segs) ==> NamesFrom(map[], segs, 1)[j] == SegNames(segs)[j]
    {
      NamesMeaning(map[], segs, 1, j);
    }
  }

  /** Every trie that Adds can build is the trie of its table of accepted routes. */
  lemma {:induction false} BuildRefines<D>(adds: seq<Registration<D>>)
    ensures Build(adds) == TrieOf(Table(adds))
  {
    if adds == [] {
      EmptyTable<D>();
    } else {
      var last := adds[|adds| - 1];
      BuildRefines(adds[..|adds| - 1]);
      StoredNames(last.segs);
      AddRefines(Table(adds[..|adds| - 1]), last.segs, 1, map[], RouteOf(last));
    }
  }

  /** Add fails exactly on keys that are already there; then nothing changes, else just that route is new. */
  lemma AddFrame<D>(adds: seq<Registration<D>>, r: Registration<D>)
    ensures var added := Add(Build(adds), r.segs, Some(r.data), 1, map[]);
            && added.trie == TrieOf(Table(adds + [r]))
            && (added.ok <==> forall e :: e in Table(adds) ==> e.rest != KeysOf(r.segs))
            && (!added.ok ==> added.trie == Build(adds) && Table(adds + [r]) == Table(adds))
            && (added.ok ==> Table(adds + [r]) == Table(adds) + [Entry(KeysOf(r.segs), RouteOf(r))])
  {
    BuildRefines(adds);
    BuildRefines(adds + [r]);
    assert (adds + [r])[..|adds|] == adds;
    StoredNames(r.segs);
    AddRefines(Table(adds), r.segs, 1, map[], RouteOf(r));
  }

  lemma {:induction false} TableRoutes<D>(adds: seq<Registration<D>>, e: Entry<D>) returns (i: nat)
    requires e in Table(adds)
    ensures i < |adds| && e == Entry(KeysOf(adds[i].segs), RouteOf(adds[i]))
  {
    var last := |adds| - 1;
    if e in Table(adds[..last]) {
      i := TableRoutes(adds[..last], e);
    } else {
      i := last;
    }
  }

  lemma {:induction false} TableCovers<D>(adds: seq<Registration<D>>, i: nat) returns (e: Entry<D>)
    requires i < |adds|
    ensures e in Table(adds) && e.rest == KeysOf(adds[i].segs)
  {
    var last := |adds| - 1;
    if i < last {
      e := TableCovers(adds[..last], i);
    } else if HasRest(Table(adds[..last]), KeysOf(adds[i].segs)) {
      e :| e in Table(adds[..last]) && e.rest == KeysOf(adds[i].segs);
    } else {
      e := Entry(KeysOf(adds[i].segs), RouteOf(adds[i]));
    }
  }

  /**
   Soundness and completeness. Match finds data exactly when some registered pattern matches a prefix
   of the segments, and then the data, the names and the flag belong to such a registration.
   */
  lemma MatchCorrect<D>(adds: seq<Registration<D>>, segs: seq<string>, matches: Matcher)
    ensures var f := Match(Build(adds), segs, matches);
            && (f.node.data.Some? <==> exists i :: 0 <= i < |adds| && Fits(KeysOf(adds[i].segs), segs, matches))
            && (f.node.data.None? ==> f.node.names == map[])
            && (f.node.data.Some? ==>
                  exists i :: 0 <= i < |adds| && Fits(KeysOf(adds[i].segs), segs, matches)
                    && f.node.data == Some(adds[i].data) && f.node.names == SegNames(adds[i].segs)
                    && (!f.full ==> |adds[i].segs| < |segs|))
  {
    var tbl := Table(adds);
    var f := Match(Build(adds), segs, matches);
    BuildRefines(adds);
    MatchRefines(tbl, segs, matches);
    if f.node.data.Some? {
      var e := FlatSound(tbl, segs, matches);
      var i := TableRoutes(adds, e);
      assert Fits(KeysOf(adds[i].segs), segs, matches);
    }
    if i :| 0 <= i < |adds| && Fits(KeysOf(adds[i].segs), segs, matches) {
      var e := TableCovers(adds, i);
      FlatComplete(tbl, segs, matches, e);
    }
  }

  /**
   Capture safety. Every stored index is below the length of the matched pattern, hence below the number
   of request segments, and the captured segment satisfies the regexp registered at that position.
   */
  lemma CaptureSafe(pattern: seq<string>, segs: seq<string>, matches: Matcher, j: nat)
    requires Fits(KeysOf(pattern), segs, matches) && j in SegNames(pattern)
    ensures j < |pattern| <= |segs|
    ensures KeyOf(pattern[j]).Reg? && matches(KeyOf(pattern[j]).regStr, segs[j])
  {
    RegexKey(pattern[j]);
    assert KeyFits(KeysOf(pattern)[j], segs[j], matches);
  }

  lemma RegexKey(seg: string)
    ensures KeyOf(seg).Reg? <==> IsRegexSegment(seg)
  {
  }

  /** With literal patterns only, the result is the longest registered prefix of the request. */
  lemma LongestLiteralPrefix<D>(adds: seq<Registration<D>>, segs: seq<string>, matches: Matcher, n: nat)
    requires forall i, j :: 0 <= i < |adds| && 0 <= j < |adds[i].segs| ==> !IsRegexSegment(adds[i].segs[j])
    requires n < |adds| && adds[n].segs <= segs
    ensures exists i :: 0 <= i < |adds| && adds[i].segs <= segs && |adds[n].segs| <= |adds[i].segs|
              && Match(Build(adds), segs, matches).node.data == Some(adds[i].data)
  {
    var tbl := Table(adds);
    BuildRefines(adds);
    MatchRefines(tbl, segs, matches);
    forall e, j | e in tbl && 0 <= j < |e.rest|
      ensures e.rest[j].Lit?
    {
      var i := TableRoutes(adds, e);
      assert e.rest[j] == KeyOf(adds[i].segs[j]);
    }
    var other := TableCovers(adds, n);
    assert Fits(other.rest, segs, matches) by {
      forall j | 0 <= j < |other.rest|
        ensures KeyFits(other.rest[j], segs[j], matches)
      {
        assert other.rest[j] == KeyOf(adds[n].segs[j]);
      }
    }
    var e := FlatLongest(tbl, segs, matches, other);
    var i := TableRoutes(adds, e);
    assert adds[i].segs <= segs by {
      forall j | 0 <= j < |adds[i].segs|
        ensures adds[i].segs[j] == segs[j]
      {
        assert KeyFits(e.rest[j], segs[j], matches) && e.rest[j] == KeyOf(adds[i].segs[j]);
      }
    }
  }

  /**
   A literal first segment shuts regexps out: once some pattern that begins with the request's first segment fits, the
   result is a pattern that begins with it and is flagged full, however much longer a fitting regexp pattern is.
   */
  lemma LiteralFirst<D>(adds: seq<Registration<D>>, segs: seq<string>, matches: Matcher, n: nat)
    requires n < |adds| && segs != [] && adds[n].segs != [] && adds[n].segs[0] == segs[0] && !IsRegexSegment(segs[0])
    requires Fits(KeysOf(adds[n].segs), segs, matches)
    ensures Match(Build(adds), segs, matches).full
    ensures exists i :: 0 <= i < |adds| && adds[i].segs != [] && adds[i].segs[0] == segs[0]
              && Fits(KeysOf(adds[i].segs), segs, matches)
                  && Match(Build(adds), segs, matches).node.data == Some(adds[i].data)
  {
    var tbl, k := Table(adds), Lit(segs[0]);
    BuildRefines(adds);
    MatchRefines(tbl, segs, matches);
    var other := TableCovers(adds, n);
    var tail := Entry(other.rest[1..], other.route);
    assert other.rest == [k] + tail.rest;
    BelowMembers(tbl, k, tail);
    FitsTail(k, tail.rest, segs, matches);
    FlatComplete(Below(tbl, k), segs[1..], matches, tail);
    var e1 := FlatSound(Below(tbl, k), segs[1..], matches);
    var e := Lift(tbl, k, e1, segs, matches);
    var i := TableRoutes(adds, e);
    LiteralKey(adds[i].segs, segs[0], e1.rest);
  }

  lemma LiteralKey(pattern: seq<string>, seg: string, rest: seq<Key>)
    requires KeysOf(pattern) == [Lit(seg)] + rest
    ensures pattern != [] && pattern[0] == seg
  {
    assert KeyOf(pattern[0]) == Lit(seg);
  }

  /** A pattern uses up the request, or one of its segments is a literal. */
  predicate PatternFull(pattern: seq<string>, segs: seq<string>)
  {
    |pattern| == |segs| || exists j :: 0 <= j < |pattern| && !IsRegexSegment(pattern[j])
  }

  lemma PatternFullIs(pattern: seq<string>, segs: seq<string>)
    ensures PatternFull(pattern, segs) <==> CountsFull(KeysOf(pattern), segs)
  {
    forall j | 0 <= j < |pattern|
      ensures KeysOf(pattern)[j].Lit? <==> !IsRegexSegment(pattern[j])
    {
      RegexKey(pattern[j]);
    }
  }

  /**
   The flag, exactly. A match is found and flagged full if and only if some registered pattern that fits has the
   length of the request or holds at least one literal segment.
   */
  lemma FlagExact<D>(adds: seq<Registration<D>>, segs: seq<string>, matches: Matcher)
    ensures var f := Match(Build(adds), segs, matches);
            f.node.data.Some? && f.full <==>
            exists i :: 0 <= i < |adds| && Fits(KeysOf(adds[i].segs), segs, matches) && PatternFull(adds[i].segs, segs)
  {
    var tbl := Table(adds);
    BuildRefines(adds);
    MatchRefines(tbl, segs, matches);
    if FlatMatch(tbl, segs, matches).route.Some? && FlatMatch(tbl, segs, matches).full {
      var e := FullSound(tbl, segs, matches);
      var i := TableRoutes(adds, e);
      PatternFullIs(adds[i].segs, segs);
    }
    if i :| 0 <= i < |adds| && Fits(KeysOf(adds[i].segs), segs, matches) && PatternFull(adds[i].segs, segs) {
      var e := TableCovers(adds, i);
      PatternFullIs(adds[i].segs, segs);
      FullComplete(tbl, segs, matches, e);
    }
  }

  /** The flag on a proper prefix: `<id>/a` registered alone, requested as x/a/b. */
  lemma FullOnPrefix(matches: Matcher)
    requires matches(".*", "x")
    ensures var f := Match(Build([Registration(["<id>", "a"], 7)]), ["x", "a", "b"], matches);
            f.node.data == Some(7) && f.full
  {
    var adds, segs := [Registration(["<id>", "a"], 7)], ["x", "a", "b"];
    var pattern := adds[0].segs;
    assert Inner("<id>") == "id" && IndexOf("id", ':') < 0;
    assert KeysOf(pattern) == [Reg(".*"), Lit("a")];
    assert Fits(KeysOf(pattern), segs, matches);
    assert !IsRegexSegment(pattern[1]);
    FlagExact(adds, segs, matches);
    MatchCorrect(adds, segs, matches);
  }
}
