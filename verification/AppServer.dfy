/** Handler registration and dispatch (pkg/appsrv/appsrv.go): one router per HTTP method. */
module AppServer {
  import opened Wrappers
  import opened Tries
  import opened RouterRefinement
  import opened RouterChoice
  import opened RouterTheorems
  import opened Radix

  /** SHandlerInfo as registered; `id` stands for everything but method and path. */
  datatype Handler = Handler(httpMethod: string, path: seq<string>, id: nat)

  /** A handler is always registered under its own path. */
  function OwnPaths(hands: seq<Handler>): seq<Registration<Handler>>
  {
    seq(|hands|, i requires 0 <= i < |hands| => Registration(hands[i].path, hands[i]))
  }

  lemma OwnPathsAppend(hands: seq<Handler>, hi: Handler)
    ensures OwnPaths(hands + [hi]) == OwnPaths(hands) + [Registration(hi.path, hi)]
  {
  }

  /** The value under the name of index i is the segment at some index with that name. */
  ghost predicate StoredAs(names: map<nat, string>, segments: seq<string>, params: map<string, string>, i: nat)
  {
    && i in names && names[i] in params
    && exists j :: j in names && names[j] == names[i] && j < |segments| && params[names[i]] == segments[j]
  }

  /** The loop of RadixNode.Match: names are visited in any order. */
  method Capture(names: map<nat, string>, segments: seq<string>, params: map<string, string>)
    returns (out: map<string, string>)
    requires forall i :: i in names ==> i < |segments|
    ensures forall name :: name in out <==> name in params || name in names.Values
    ensures forall i :: i in names ==> StoredAs(names, segments, out, i)
    ensures forall name :: name in params && name !in names.Values ==> out[name] == params[name]
  {
    out := params;
    var todo := names.Keys;
    while todo != {}
      invariant todo <= names.Keys
      invariant forall name :: name in out <==>
          name in params || exists i :: i in names && i !in todo && names[i] == name
      invariant forall i :: i in names && i !in todo ==> StoredAs(names, segments, out, i)
      invariant forall name :: name in params && name !in names.Values ==> out[name] == params[name]
      decreases |todo|
    {
      var index :| index in todo;
      ghost var before := out;
      out := out[names[index] := segments[index]];
      todo := todo - {index};
      forall i | i in names && i !in todo
        ensures StoredAs(names, segments, out, i)
      {
        StoredNext(names, segments, before, index, i);
      }
    }
  }

  lemma StoredNext(names: map<nat, string>, segments: seq<string>, params: map<string, string>, index: nat, i: nat)
    requires index in names && index < |segments| && (i == index || StoredAs(names, segments, params, i))
    ensures StoredAs(names, segments, params[names[index] := segments[index]], i)
  {
    if i != index && names[i] != names[index] {
      var j :| j in names && names[j] == names[i] && j < |segments| && params[names[i]] == segments[j];
      assert params[names[index] := segments[index]][names[i]] == segments[j];
    } else {
      assert names[index] == names[i];
    }
  }

  class Application {
    var roots: map<string, RadixNode<Handler>>
    /** The handlers accepted for each method, in registration order. */
    ghost var hands: map<string, seq<Handler>>
    ghost var Repr: set<object>

    ghost predicate Valid()
      reads this, Repr
    {
      RootsOk() && Apart() && Registered()
    }

    ghost predicate RootsOk()
      reads this, Repr
    {
      && this in Repr
      && (forall m :: m in roots ==> roots[m] in Repr && roots[m].Repr <= Repr)
      && (forall m :: m in roots ==> this !in roots[m].Repr && roots[m].Valid())
    }

    ghost predicate Apart()
      requires forall m :: m in roots ==> roots[m] in Repr
      reads this, Repr
    {
      forall m, m' :: m in roots && m' in roots && m != m' ==> roots[m].Repr !! roots[m'].Repr
    }

    /** Every root is the router of the handlers accepted for its method, each under its own path. */
    ghost predicate Registered()
      requires forall m :: m in roots ==> roots[m] in Repr
      reads this, Repr
    {
      && hands.Keys == roots.Keys
      && (forall m :: m in roots ==> roots[m].trie == Build(OwnPaths(hands[m])))
    }

    constructor ()
      ensures Valid() && fresh(Repr) && hands == map[]
    {
      roots, hands := map[], map[];
      Repr := {this};
    }

    /** The root of one method is now `root`; `part` was its old footprint, empty for a new root. */
    twostate predicate Rerooted(new m: string, new root: RadixNode<Handler>, new part: set<object>)
      reads this, Repr, root, root.Repr
    {
      && roots == old(roots)[m := root] && Repr == old(Repr) + root.Repr
      && old(Valid()) && root.Valid() && this !in root.Repr && this !in part && part <= old(Repr)
      && (forall x :: x in old(roots) && x != m ==> old(roots[x].Repr) !! part)
      && (forall o: object :: o in root.Repr && o !in part ==> !old(allocated(o)))
      && (forall o: object :: o in old(Repr) && o != this && o !in part ==> unchanged(o))
    }

    twostate lemma OtherRoots(new m: string, new root: RadixNode<Handler>, new part: set<object>)
      requires Rerooted(m, root, part)
      ensures forall x :: x in roots && x != m ==> x in old(roots) && roots[x] == old(roots[x])
      ensures forall x :: x in roots && x != m ==>
                roots[x].Repr == old(roots[x].Repr) && roots[x].trie == old(roots[x].trie) && roots[x].Repr !! root.Repr
      ensures RootsOk()
    {
      assert old(RootsOk());
      forall x | x in roots && x != m
        ensures roots[x].Repr == old(roots[x].Repr) && roots[x].trie == old(roots[x].trie) && roots[x].Repr !! root.Repr
        ensures roots[x].Valid()
      {
        ghost var c := old(roots[x]);
        assert old(c.Valid() && c in c.Repr && c.Repr <= Repr && this !in c.Repr);
        assert forall o: object :: o in old(c.Repr) ==> o !in part && o != this && old(allocated(o));
      }
    }

    twostate lemma RerootedValid(new m: string, new root: RadixNode<Handler>, new part: set<object>,
        new list: seq<Handler>)
      requires Rerooted(m, root, part)
      requires hands == old(hands)[m := list] && root.trie == Build(OwnPaths(list))
      ensures Valid()
    {
      OtherRoots(m, root, part);
      RerootedApart(m, root, part);
      assert old(RootsOk());
      assert old(Registered());
    }

    twostate lemma RerootedApart(new m: string, new root: RadixNode<Handler>, new part: set<object>)
      requires Rerooted(m, root, part) && RootsOk()
      ensures Apart()
    {
      OtherRoots(m, root, part);
      assert old(RootsOk());
      assert old(Apart());
    }

    /** Takes a root into the ghost view. */
    ghost method Adopt(m: string, root: RadixNode<Handler>, list: seq<Handler>)
      modifies this`hands, this`Repr
      ensures hands == old(hands)[m := list] && Repr == old(Repr) + old(root.Repr)
    {
      hands := hands[m := list];
      Repr := Repr + root.Repr;
    }

    /** A missing root is created on first use, by registration and by dispatch alike. */
    method NewRoot(httpMethod: string) returns (root: RadixNode<Handler>)
      requires Valid() && httpMethod !in roots
      modifies this
      ensures Valid() && fresh(Repr - old(Repr)) && old(Repr) <= Repr
      ensures httpMethod in roots && root == roots[httpMethod]
      ensures hands == old(hands)[httpMethod := []]
    {
      root := new RadixNode<Handler>();
      roots := roots[httpMethod := root];
      Adopt(httpMethod, root, []);
      assert OwnPaths([]) == [];
      RerootedValid(httpMethod, root, {}, []);
    }

    method GetRoot(httpMethod: string) returns (root: RadixNode<Handler>)
      requires Valid()
      modifies this
      ensures Valid() && fresh(Repr - old(Repr)) && old(Repr) <= Repr
      ensures httpMethod in roots && root == roots[httpMethod]
      ensures hands == old(hands)[httpMethod := HandsOf(old(hands), httpMethod)]
    {
      if httpMethod in roots {
        root := roots[httpMethod];
        assert hands[httpMethod := hands[httpMethod]] == hands;
      } else {
        root := NewRoot(httpMethod);
      }
    }

    /** Registers into an existing root. */
    method Register(root: RadixNode<Handler>, hi: Handler) returns (ok: bool)
      requires Valid() && hi.httpMethod in roots && root == roots[hi.httpMethod]
      modifies Repr
      ensures Valid() && fresh(Repr - old(Repr)) && old(Repr) <= Repr
      ensures ok <==> FreePath(old(hands)[hi.httpMethod], hi)
      ensures hands == AfterAdd(old(hands), hi)
    {
      ghost var list, part := hands[hi.httpMethod], root.Repr;
      ghost var after := if FreePath(list, hi) then list + [hi] else list;
      RegisterSpec(list, hi);
      ok := root.Add(hi.path, Some(hi), 1, map[]);
      Adopt(hi.httpMethod, root, after);
      RerootedValid(hi.httpMethod, root, part, after);
    }

    /** AddHandler3; false stands for the fatal log of the source. */
    method AddHandler3(hi: Handler) returns (ok: bool)
      requires Valid()
      modifies Repr
      ensures Valid() && fresh(Repr - old(Repr)) && old(Repr) <= Repr
      ensures ok <==> FreePath(HandsOf(old(hands), hi.httpMethod), hi)
      ensures hands == AfterAdd(old(hands), hi)
    {
      var root := GetRoot(hi.httpMethod);
      AfterAddTwice(old(hands), hi);
      ok := Register(root, hi);
    }

    /** The routing part of defaultHandle and the path slice of appTask.Run. */
    method Dispatch(httpMethod: string, segs: seq<string>, matches: Matcher)
      returns (hand: Option<Handler>, params: map<string, string>, rest: seq<string>)
      requires Valid()
      modifies this
      ensures Valid() && fresh(Repr - old(Repr)) && old(Repr) <= Repr
      ensures hands == old(hands)[httpMethod := HandsOf(old(hands), httpMethod)]
      ensures Dispatched(HandsOf(old(hands), httpMethod), segs, matches, hand, params, rest)
    {
      var root := GetRoot(httpMethod);
      hand, params, rest := RouteIn(root, hands[httpMethod], segs, matches);
    }
  }

  /**
   The handler is the one the choice rule picks from the accepted paths. One is found exactly when one of the list
   fits; its path is no longer than the request; and the parameters are exactly its captures, each a request segment
   that satisfies the regexp registered under that name.
   */
  ghost predicate Dispatched(list: seq<Handler>, segs: seq<string>, matches: Matcher,
                             hand: Option<Handler>, params: map<string, string>, rest: seq<string>)
  {
    && hand == Winner(list, segs, matches)
    && (hand.Some? <==> exists h :: h in list && Fits(KeysOf(h.path), segs, matches))
    && (hand.Some? ==> hand.value in list && Fits(KeysOf(hand.value.path), segs, matches))
    && (hand.Some? ==> |hand.value.path| <= |segs| && rest == segs[|hand.value.path|..])
    && (hand.Some? ==> OnlyCaptures(hand.value.path, params))
    && (hand.Some? ==> forall i :: i in SegNames(hand.value.path) ==>
        Captured(hand.value.path, segs, matches, params, i))
    && (hand.None? ==> params == map[] && rest == [])
  }

  /** The handler that the choice rule picks from the table of accepted paths. */
  ghost function Winner(list: seq<Handler>, segs: seq<string>, matches: Matcher): Option<Handler>
  {
    DataOf(FlatMatch(Table(OwnPaths(list)), segs, matches).route)
  }

  ghost predicate OnlyCaptures(path: seq<string>, params: map<string, string>)
  {
    params.Keys == SegNames(path).Values
  }

  /** RadixNode.Match on the router of a list of handlers. */
  method RouteIn(root: RadixNode<Handler>, ghost list: seq<Handler>, segs: seq<string>, matches: Matcher)
    returns (hand: Option<Handler>, params: map<string, string>, rest: seq<string>)
    requires root.Valid() && root.trie == Build(OwnPaths(list))
    ensures Dispatched(list, segs, matches, hand, params, rest)
  {
    var node, _ := root.Search(segs, matches);
    node.Containers();
    FoundSpec(list, segs, matches);
    params := Capture(node.segNames, segs, map[]);
    hand := node.data;
    rest := [];
    if hand.Some? {
      rest := segs[|hand.value.path|..];
    }
    DispatchedBy(list, segs, matches, hand, node.segNames, params, rest);
  }

  lemma DispatchedBy(list: seq<Handler>, segs: seq<string>, matches: Matcher, hand: Option<Handler>,
                     names: map<nat, string>, params: map<string, string>, rest: seq<string>)
    requires FoundIn(list, segs, matches, hand, names)
    requires hand.Some? ==> |hand.value.path| <= |segs| && rest == segs[|hand.value.path|..]
    requires hand.None? ==> rest == []
    requires params.Keys == names.Values && forall i :: i in names ==> StoredAs(names, segs, params, i)
    ensures Dispatched(list, segs, matches, hand, params, rest)
  {
    if hand.Some? {
      forall i | i in names
        ensures Captured(hand.value.path, segs, matches, params, i)
      {
        CapturedAt(hand.value.path, segs, matches, params, i);
      }
    }
  }

  /** A stored value of a fitting path satisfies the regexp it was captured by. */
  lemma CapturedAt(path: seq<string>, segs: seq<string>, matches: Matcher, params: map<string, string>, i: nat)
    requires Fits(KeysOf(path), segs, matches) && StoredAs(SegNames(path), segs, params, i)
    ensures Captured(path, segs, matches, params, i)
  {
    var names := SegNames(path);
    var j :| j in names && names[j] == names[i] && j < |segs| && params[names[i]] == segs[j];
    CaptureSafe(path, segs, matches, j);
  }

  ghost function AfterAdd(hands: map<string, seq<Handler>>, hi: Handler): map<string, seq<Handler>>
  {
    var list := HandsOf(hands, hi.httpMethod);
    hands[hi.httpMethod := if FreePath(list, hi) then list + [hi] else list]
  }

  lemma AfterAddTwice(hands: map<string, seq<Handler>>, hi: Handler)
    ensures AfterAdd(hands[hi.httpMethod := HandsOf(hands, hi.httpMethod)], hi) == AfterAdd(hands, hi)
  {
  }

  /** The value stored under the name of regexp segment i is a segment captured under that name. */
  ghost predicate Captured(path: seq<string>, segs: seq<string>, matches: Matcher, params: map<string, string>, i: nat)
    requires |path| <= |segs| && i in SegNames(path)
  {
    && SegNames(path)[i] in params
    && exists j :: j in SegNames(path) && SegNames(path)[j] == SegNames(path)[i]
         && params[SegNames(path)[i]] == segs[j] && KeyOf(path[j]).Reg? && matches(KeyOf(path[j]).regStr, segs[j])
  }

  /** The data and names that match finds in the router of a list of handlers. */
  ghost predicate FoundIn(list: seq<Handler>, segs: seq<string>, matches: Matcher, hand: Option<Handler>,
                          names: map<nat, string>)
  {
    && hand == Winner(list, segs, matches)
    && (hand.Some? <==> exists h :: h in list && Fits(KeysOf(h.path), segs, matches))
    && (hand.Some? ==> hand.value in list && Fits(KeysOf(hand.value.path), segs, matches))
    && names == (if hand.Some? then SegNames(hand.value.path) else map[])
    && (forall j :: j in names ==> j < |segs|)
  }

  lemma FoundSpec(list: seq<Handler>, segs: seq<string>, matches: Matcher)
    ensures var node := Match(Build(OwnPaths(list)), segs, matches).node;
            FoundIn(list, segs, matches, node.data, node.names)
  {
    var adds := OwnPaths(list);
    var node := Match(Build(adds), segs, matches).node;
    MatchCorrect(adds, segs, matches);
    BuildRefines(adds);
    MatchRefines(Table(adds), segs, matches);
    if node.data.Some? {
      var i :| 0 <= i < |adds| && Fits(KeysOf(adds[i].segs), segs, matches)
             && node.data == Some(adds[i].data) && node.names == SegNames(adds[i].segs);
      assert adds[i].data == list[i];
    }
    if h :| h in list && Fits(KeysOf(h.path), segs, matches) {
      var i :| 0 <= i < |list| && list[i] == h;
      assert adds[i].segs == h.path;
    }
  }

  /** No accepted handler has the same keys: literals by text, regexps by regStr, names ignored. */
  ghost predicate FreePath(list: seq<Handler>, hi: Handler)
  {
    forall h :: h in list ==> KeysOf(h.path) != KeysOf(hi.path)
  }

  /** Adding a handler to the router of a list gives the router of the longer list, or fails on equal keys. */
  lemma RegisterSpec(list: seq<Handler>, hi: Handler)
    ensures var added := Add(Build(OwnPaths(list)), hi.path, Some(hi), 1, map[]);
            && (added.ok <==> FreePath(list, hi))
            && added.trie == Build(OwnPaths(if added.ok then list + [hi] else list))
  {
    var adds, r := OwnPaths(list), Registration(hi.path, hi);
    OwnPathsAppend(list, hi);
    AddFrame(adds, r);
    BuildRefines(adds + [r]);
    if h :| h in list && KeysOf(h.path) == KeysOf(hi.path) {
      var i :| 0 <= i < |list| && list[i] == h;
      var e := TableCovers(adds, i);
    }
    if e :| e in Table(adds) && e.rest == KeysOf(hi.path) {
      var i := TableRoutes(adds, e);
      assert list[i] in list;
    }
  }

  function HandsOf(hands: map<string, seq<Handler>>, m: string): seq<Handler>
  {
    if m in hands then hands[m] else []
  }
}
