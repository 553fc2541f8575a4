/** What match returns, stated on the flat table of routes. */
module RouterChoice {
  import opened Wrappers
  import opened Tries
  import opened RouterRefinement

  type Matcher = (string, string) -> bool

  datatype Choice<D> = Choice(route: Option<Route<D>>, full: bool)

  predicate KeyFits(k: Key, seg: string, matches: Matcher)
  {
    match k
    case Lit(s) => s == seg
    case Reg(r) => matches(r, seg)
  }

  /** The keys match a prefix of the segments. */
  predicate Fits(keys: seq<Key>, segs: seq<string>, matches: Matcher)
  {
    |keys| <= |segs| && forall i :: 0 <= i < |keys| ==> KeyFits(keys[i], segs[i], matches)
  }

  /** The route found below the first regexp, in registration order, that finds one with the wanted flag. */
  function FirstYield<D>(tbl: seq<Entry<D>>, order: seq<string>, segs: seq<string>, matches: Matcher,
      wantFull: bool): Option<Route<D>>
    requires segs != []
    decreases |segs|, 0, |order|
  {
    if order == [] then None
    else
      var c := FlatMatch(Below(tbl, Reg(order[0])), segs[1..], matches);
      if matches(order[0], segs[0]) && c.route.Some? && c.full == wantFull then c.route
      else FirstYield(tbl, order[1..], segs, matches, wantFull)
  }

  /**
   The choice rule on the table: a literal first segment that finds a route wins and counts as full;
   then the first regexp flagged full; then the first partial one; then the route that ends here.
   */
  function FlatMatch<D>(tbl: seq<Entry<D>>, segs: seq<string>, matches: Matcher): Choice<D>
    decreases |segs|, 1, 0
  {
    if segs == [] then Choice(Own(tbl), true)
    else
      var lit := FlatMatch(Below(tbl, Lit(segs[0])), segs[1..], matches);
      var whole := FirstYield(tbl, RegOrder(tbl), segs, matches, true);
      var part := FirstYield(tbl, RegOrder(tbl), segs, matches, false);
      if lit.route.Some? then Choice(lit.route, true)
      else if whole.Some? then Choice(whole, true)
      else if part.Some? then Choice(part, false)
      else Choice(Own(tbl), false)
  }

  function DataOf<D>(route: Option<Route<D>>): Option<D>
  {
    if route.Some? then Some(route.value.data) else None
  }

  // ---------------------------------------------------------------- refinement

  /** A node carries the data and names of a route, or neither data nor names. */
  ghost predicate Shows<D>(node: Trie<D>, route: Option<Route<D>>)
  {
    match route
    case None => node.data.None? && node.names == map[]
    case Some(r) => node.data == Some(r.data) && node.names == r.names
  }

  lemma OwnShows<D>(tbl: seq<Entry<D>>)
    ensures Shows(TrieOf(tbl), Own(tbl))
  {
  }

  lemma {:induction false} NothingBelow<D>(segs: seq<string>, matches: Matcher)
    ensures FlatMatch<D>([], segs, matches).route.None?
  {
    if segs != [] {
      NothingBelow<D>(segs[1..], matches);
    }
  }

  /** match on the trie of a table finds what the choice rule picks, with the same flag. */
  lemma {:induction false} MatchRefines<D>(tbl: seq<Entry<D>>, segs: seq<string>, matches: Matcher)
    ensures var f, c := Match(TrieOf(tbl), segs, matches), FlatMatch(tbl, segs, matches);
            Shows(f.node, c.route) && f.full == c.full
    decreases |segs|, 1, 0
  {
    OwnShows(tbl);
    if segs != [] {
      var k := Lit(segs[0]);
      MatchRefines(Below(tbl, k), segs[1..], matches);
      ChildOf(tbl, k);
      BelowInhabited(tbl, k);
      if segs[0] !in FirstTexts(tbl) {
        NothingBelow<D>(segs[1..], matches);
      }
      assert RegOrder(tbl)[0..] == RegOrder(tbl);
      ScanRefines(tbl, segs, matches, 0, None, None);
    }
  }

  /** The loop with its one remembered partial match is "first full, else first partial". */
  lemma {:induction false} ScanRefines<D>(tbl: seq<Entry<D>>, segs: seq<string>, matches: Matcher, i: nat,
      tmp: Option<Trie<D>>, kept: Option<Route<D>>)
    requires segs != [] && i <= |RegOrder(tbl)|
    requires tmp.Some? <==> kept.Some?
    requires tmp.Some? ==> Shows(tmp.value, kept)
    ensures var f := Scan(TrieOf(tbl), segs, matches, i, tmp);
            var order := RegOrder(tbl)[i..];
            var whole := FirstYield(tbl, order, segs, matches, true);
            var part := if kept.Some? then kept else FirstYield(tbl, order, segs, matches, false);
            if whole.Some? then Shows(f.node, whole) && f.full
            else !f.full && Shows(f.node, if part.Some? then part else Own(tbl))
    decreases |segs|, 0, |RegOrder(tbl)| - i
  {
    OwnShows(tbl);
    var order := RegOrder(tbl)[i..];
    if i < |RegOrder(tbl)| {
      RegChildrenAt(tbl, RegOrder(tbl), i);
      assert order[0] == RegOrder(tbl)[i] && order[1..] == RegOrder(tbl)[i + 1..];
      var sub := Below(tbl, Reg(order[0]));
      MatchRefines(sub, segs[1..], matches);
      var f, c := Match(TrieOf(sub), segs[1..], matches), FlatMatch(sub, segs[1..], matches);
      if matches(order[0], segs[0]) && c.route.Some? && !c.full && kept.None? {
        ScanRefines(tbl, segs, matches, i + 1, Some(f.node), c.route);
      } else {
        ScanRefines(tbl, segs, matches, i + 1, tmp, kept);
      }
    }
  }
}
