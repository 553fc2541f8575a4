/** The trie is a function of the flat table of accepted routes, and match refines a choice on that table. */
module RouterRefinement {
  import opened Wrappers
  import opened Tries

  // ---------------------------------------------------------- tables below a key

  lemma BelowAppend<D>(tbl: seq<Entry<D>>, e: Entry<D>, k: Key)
    ensures Below(tbl + [e], k)
         == if e.rest != [] && e.rest[0] == k then Below(tbl, k) + [Entry(e.rest[1..], e.route)] else Below(tbl, k)
  {
    assert (tbl + [e])[..|tbl|] == tbl;
  }

  /** Below is not empty exactly for the keys that some route begins with. */
  lemma {:induction false} BelowInhabited<D>(tbl: seq<Entry<D>>, k: Key)
    ensures Below(tbl, k) != [] <==> if k.Lit? then k.text in FirstTexts(tbl) else k.regStr in RegOrder(tbl)
  {
    if tbl != [] {
      BelowInhabited(tbl[..|tbl| - 1], k);
    }
  }

  /** Entries below k are exactly the entries of the table that begin with k, cut by one key. */
  lemma {:induction false} BelowMembers<D>(tbl: seq<Entry<D>>, k: Key, e: Entry<D>)
    ensures e in Below(tbl, k) <==> Entry([k] + e.rest, e.route) in tbl
  {
    if tbl != [] {
      var front, last := tbl[..|tbl| - 1], tbl[|tbl| - 1];
      assert tbl == front + [last];
      BelowMembers(front, k, e);
      if last.rest != [] && last.rest[0] == k {
        assert last.rest == [k] + last.rest[1..];
        assert Entry([k] + e.rest, e.route) == last <==> e == Entry(last.rest[1..], last.route) by {
          assert ([k] + e.rest)[1..] == e.rest;
        }
      }
    }
  }

  // --------------------------------------------------------- the trie of a table

  function OwnData<D>(tbl: seq<Entry<D>>): Option<D>
  {
    if Own(tbl).Some? then Some(Own(tbl).value.data) else None
  }

  function OwnNames<D>(tbl: seq<Entry<D>>): map<nat, string>
  {
    if Own(tbl).Some? then Own(tbl).value.names else map[]
  }

  ghost function TrieOf<D>(tbl: seq<Entry<D>>): Trie<D>
    decreases Weight(tbl), |RegOrder(tbl)| + 1
  {
    Trie(OwnData(tbl), TextChildren(tbl), RegChildren(tbl, RegOrder(tbl)), OwnNames(tbl))
  }

  ghost function TextChildren<D>(tbl: seq<Entry<D>>): map<string, Trie<D>>
    decreases Weight(tbl), 0
  {
    map s | s in FirstTexts(tbl) :: (BelowInhabited(tbl, Lit(s)); TrieOf(Below(tbl, Lit(s))))
  }

  ghost function RegChildren<D>(tbl: seq<Entry<D>>, order: seq<string>): (r: seq<RegChild<D>>)
    requires forall x :: x in order ==> x in RegOrder(tbl)
    ensures |r| == |order|
    decreases Weight(tbl), |order|
  {
    if order == [] then []
    else
      var last := order[|order| - 1];
      BelowInhabited(tbl, Reg(last));
      RegChildren(tbl, order[..|order| - 1]) + [RegChild(last, TrieOf(Below(tbl, Reg(last))))]
  }

  lemma {:induction false} RegChildrenAt<D>(tbl: seq<Entry<D>>, order: seq<string>, i: nat)
    requires i < |order| && forall x :: x in order ==> x in RegOrder(tbl)
    ensures RegChildren(tbl, order)[i] == RegChild(order[i], TrieOf(Below(tbl, Reg(order[i]))))
  {
    if i < |order| - 1 {
      RegChildrenAt(tbl, order[..|order| - 1], i);
    }
  }

  /** The child for a key is the trie of the table below that key, empty or not. */
  lemma ChildOf<D>(tbl: seq<Entry<D>>, k: Key)
    ensures Child(TrieOf(tbl), k) == TrieOf(Below(tbl, k))
  {
    BelowInhabited(tbl, k);
    if k.Reg? {
      var i := FindReg(TrieOf(tbl).regs, k.regStr);
      if i < |RegOrder(tbl)| {
        RegChildrenAt(tbl, RegOrder(tbl), i);
      } else if k.regStr in RegOrder(tbl) {
        var j :| 0 <= j < |RegOrder(tbl)| && RegOrder(tbl)[j] == k.regStr;
        RegChildrenAt(tbl, RegOrder(tbl), j);
        assert false;
      } else {
        EmptyTable<D>();
      }
    } else if k.text !in FirstTexts(tbl) {
      EmptyTable<D>();
    }
  }

  lemma EmptyTable<D>()
    ensures TrieOf<D>([]) == EmptyTrie<D>()
  {
  }

  // ----------------------------------------------------------------------- add

  lemma FieldsAppend<D>(tbl: seq<Entry<D>>, e: Entry<D>)
    ensures Own(tbl + [e]) == if Own(tbl).Some? then Own(tbl) else if e.rest == [] then Some(e.route) else None
    ensures FirstTexts(tbl + [e]) == FirstTexts(tbl) + if e.rest != [] && e.rest[0].Lit? then {e.rest[0].text} else {}
    ensures RegOrder(tbl + [e]) == if e.rest != [] && e.rest[0].Reg? && e.rest[0].regStr !in RegOrder(tbl)
                                   then RegOrder(tbl) + [e.rest[0].regStr] else RegOrder(tbl)
  {
    assert (tbl + [e])[..|tbl|] == tbl;
  }

  /** The table below a key once e has been appended. */
  function BelowWith<D>(tbl: seq<Entry<D>>, e: Entry<D>, k: Key): seq<Entry<D>>
  {
    if e.rest != [] && e.rest[0] == k then Below(tbl, k) + [Entry(e.rest[1..], e.route)] else Below(tbl, k)
  }

  /** Text children change only under the first key of the new entry. */
  lemma TextChildAt<D>(tbl: seq<Entry<D>>, e: Entry<D>, s: string)
    requires s in TextChildren(tbl + [e])
    ensures e.rest != [] && e.rest[0] == Lit(s) ==> TextChildren(tbl + [e])[s] == TrieOf(BelowWith(tbl, e, Lit(s)))
    ensures !(e.rest != [] && e.rest[0] == Lit(s)) ==>
        s in TextChildren(tbl) && TextChildren(tbl + [e])[s] == TextChildren(tbl)[s]
  {
    FieldsAppend(tbl, e);
    BelowAppend(tbl, e, Lit(s));
  }

  lemma TextKeysAppend<D>(tbl: seq<Entry<D>>, e: Entry<D>)
    ensures TextChildren(tbl + [e]).Keys
         == TextChildren(tbl).Keys + if e.rest != [] && e.rest[0].Lit? then {e.rest[0].text} else {}
  {
    FieldsAppend(tbl, e);
  }

  lemma TextChildrenAppend<D>(tbl: seq<Entry<D>>, e: Entry<D>)
    ensures TextChildren(tbl + [e])
         == if e.rest != [] && e.rest[0].Lit? then
              TextChildren(tbl)[e.rest[0].text := TrieOf(BelowWith(tbl, e, e.rest[0]))]
            else TextChildren(tbl)
  {
    TextKeysAppend(tbl, e);
    forall s | s in TextChildren(tbl + [e])
      ensures e.rest != [] && e.rest[0] == Lit(s) ==> TextChildren(tbl + [e])[s] == TrieOf(BelowWith(tbl, e, Lit(s)))
      ensures !(e.rest != [] && e.rest[0] == Lit(s)) ==>
          s in TextChildren(tbl) && TextChildren(tbl + [e])[s] == TextChildren(tbl)[s]
    {
      TextChildAt(tbl, e, s);
    }
    if e.rest != [] && e.rest[0].Lit? {
      MapGrows(TextChildren(tbl), TextChildren(tbl + [e]), e.rest[0].text, TrieOf(BelowWith(tbl, e, e.rest[0])));
    } else {
      MapSame(TextChildren(tbl), TextChildren(tbl + [e]));
    }
  }

  lemma MapGrows<K, V>(m: map<K, V>, m': map<K, V>, k: K, v: V)
    requires m'.Keys == m.Keys + {k} && m'[k] == v
    requires forall x :: x in m' && x != k ==> x in m && m'[x] == m[x]
    ensures m' == m[k := v]
  {
  }

  lemma MapSame<K, V>(m: map<K, V>, m': map<K, V>)
    requires m'.Keys == m.Keys
    requires forall x :: x in m' ==> x in m && m'[x] == m[x]
    ensures m' == m
  {
  }

  /** So do regexp children; a new regStr goes to the end. */
  lemma RegChildrenAppend<D>(tbl: seq<Entry<D>>, e: Entry<D>, i: nat)
    requires i < |RegOrder(tbl + [e])|
    ensures RegChildren(tbl + [e], RegOrder(tbl + [e]))[i]
         == RegChild(RegOrder(tbl + [e])[i], TrieOf(BelowWith(tbl, e, Reg(RegOrder(tbl + [e])[i]))))
  {
    RegChildrenAt(tbl + [e], RegOrder(tbl + [e]), i);
    BelowAppend(tbl, e, Reg(RegOrder(tbl + [e])[i]));
  }

  lemma RegOrderDistinct<D>(tbl: seq<Entry<D>>)
    ensures forall i, j :: 0 <= i < j < |RegOrder(tbl)| ==> RegOrder(tbl)[i] != RegOrder(tbl)[j]
  {
  }

  lemma RegsAt<D>(tbl: seq<Entry<D>>, i: nat)
    requires i < |RegOrder(tbl)|
    ensures |TrieOf(tbl).regs| == |RegOrder(tbl)|
    ensures TrieOf(tbl).regs[i] == RegChild(RegOrder(tbl)[i], TrieOf(Below(tbl, Reg(RegOrder(tbl)[i]))))
  {
    RegChildrenAt(tbl, RegOrder(tbl), i);
  }

  /** Regexp child i before and after e is appended. */
  lemma RegAt<D>(tbl: seq<Entry<D>>, e: Entry<D>, i: nat)
    requires i < |RegOrder(tbl + [e])| && e.rest != []
    ensures |TrieOf(tbl).regs| == |RegOrder(tbl)| && |TrieOf(tbl + [e]).regs| == |RegOrder(tbl + [e])|
    ensures var x := RegOrder(tbl + [e])[i];
            TrieOf(tbl + [e]).regs[i].regStr == x
            && if e.rest[0] == Reg(x) then TrieOf(tbl + [e]).regs[i].node == TrieOf(BelowWith(tbl, e, Reg(x)))
               else i < |RegOrder(tbl)| && TrieOf(tbl + [e]).regs[i] == TrieOf(tbl).regs[i]
    ensures i < |RegOrder(tbl)| ==> TrieOf(tbl).regs[i].regStr == RegOrder(tbl)[i] == RegOrder(tbl + [e])[i]
  {
    RegChildrenAppend(tbl, e, i);
    FieldsAppend(tbl, e);
    if i < |RegOrder(tbl)| {
      RegsAt(tbl, i);
    }
  }

  /** Putting c under r in a list without duplicates, seen entry by entry. */
  lemma RegsPlaced<D>(regs: seq<RegChild<D>>, regs': seq<RegChild<D>>, r: string, c: Trie<D>)
    requires forall i, j :: 0 <= i < j < |regs| ==> regs[i].regStr != regs[j].regStr
    requires |regs'| == |regs| + if FindReg(regs, r) < |regs| then 0 else 1
    requires forall i :: 0 <= i < |regs| ==> regs'[i].regStr == regs[i].regStr
    requires |regs'| > |regs| ==> regs'[|regs|].regStr == r
    requires forall i :: 0 <= i < |regs'| ==>
        if regs'[i].regStr == r then regs'[i].node == c else i < |regs| && regs'[i] == regs[i]
    ensures regs' == if FindReg(regs, r) < |regs| then regs[FindReg(regs, r) := RegChild(r, c)]
        else regs + [RegChild(r, c)]
  {
  }

  /** Regexp children are known by their place in the order. */
  lemma RegsNamed<D>(tbl: seq<Entry<D>>)
    ensures |TrieOf(tbl).regs| == |RegOrder(tbl)|
    ensures forall i :: 0 <= i < |RegOrder(tbl)| ==> TrieOf(tbl).regs[i].regStr == RegOrder(tbl)[i]
  {
    forall i | 0 <= i < |RegOrder(tbl)|
      ensures TrieOf(tbl).regs[i].regStr == RegOrder(tbl)[i]
    {
      RegsAt(tbl, i);
    }
  }

  lemma RegsOf<D>(tbl: seq<Entry<D>>, e: Entry<D>)
    requires e.rest != []
    ensures var regs, regs' := TrieOf(tbl).regs, TrieOf(tbl + [e]).regs;
            forall i :: 0 <= i < |regs'| ==>
              if e.rest[0] == Reg(regs'[i].regStr) then regs'[i].node == TrieOf(BelowWith(tbl, e, e.rest[0]))
              else i < |regs| && regs'[i] == regs[i]
  {
    RegsNamed(tbl);
    RegsNamed(tbl + [e]);
    forall i | 0 <= i < |TrieOf(tbl + [e]).regs|
      ensures var regs, regs' := TrieOf(tbl).regs, TrieOf(tbl + [e]).regs;
              if e.rest[0] == Reg(regs'[i].regStr) then regs'[i].node == TrieOf(BelowWith(tbl, e, e.rest[0]))
              else i < |regs| && regs'[i] == regs[i]
    {
      RegAt(tbl, e, i);
    }
  }

  /** A regexp key keeps the names in their places; a new one goes to the end. */
  lemma GrownNames<D>(tbl: seq<Entry<D>>, e: Entry<D>)
    requires e.rest != [] && e.rest[0].Reg?
    ensures var regs, regs', r := TrieOf(tbl).regs, TrieOf(tbl + [e]).regs, e.rest[0].regStr;
            && (forall i, j :: 0 <= i < j < |regs| ==> regs[i].regStr != regs[j].regStr)
            && |regs'| == |regs| + (if FindReg(regs, r) < |regs| then 0 else 1)
            && (forall i :: 0 <= i < |regs| ==> regs'[i].regStr == regs[i].regStr)
            && (|regs'| > |regs| ==> regs'[|regs|].regStr == r)
  {
    FieldsAppend(tbl, e);
    RegsNamed(tbl);
    RegsNamed(tbl + [e]);
    RegOrderDistinct(tbl);
    FindRegOrder(TrieOf(tbl).regs, RegOrder(tbl), e.rest[0].regStr);
  }

  /** A literal key leaves the regexp children alone. */
  lemma SameRegs<D>(tbl: seq<Entry<D>>, e: Entry<D>)
    requires e.rest != [] && e.rest[0].Lit?
    ensures TrieOf(tbl + [e]).regs == TrieOf(tbl).regs
  {
    FieldsAppend(tbl, e);
    RegsNamed(tbl);
    RegsNamed(tbl + [e]);
    RegsOf(tbl, e);
  }

  lemma GrowRegs<D>(tbl: seq<Entry<D>>, e: Entry<D>)
    requires e.rest != []
    ensures SetChild(TrieOf(tbl), e.rest[0], TrieOf(BelowWith(tbl, e, e.rest[0]))).regs == TrieOf(tbl + [e]).regs
  {
    if e.rest[0].Reg? {
      GrownNames(tbl, e);
      RegsOf(tbl, e);
      RegsPlaced(TrieOf(tbl).regs, TrieOf(tbl + [e]).regs, e.rest[0].regStr, TrieOf(BelowWith(tbl, e, e.rest[0])));
    } else {
      SameRegs(tbl, e);
    }
  }

  lemma FindRegOrder<D>(regs: seq<RegChild<D>>, order: seq<string>, r: string)
    requires |regs| == |order| && forall i :: 0 <= i < |regs| ==> regs[i].regStr == order[i]
    ensures FindReg(regs, r) < |regs| <==> r in order
  {
  }

  /** Adding an entry is replacing the child under its first key. */
  lemma GrowChild<D>(tbl: seq<Entry<D>>, e: Entry<D>)
    requires e.rest != []
    ensures SetChild(TrieOf(tbl), e.rest[0], TrieOf(BelowWith(tbl, e, e.rest[0]))) == TrieOf(tbl + [e])
  {
    GrowRegs(tbl, e);
    FieldsAppend(tbl, e);
    TextChildrenAppend(tbl, e);
  }

  ghost predicate HasRest<D>(tbl: seq<Entry<D>>, keys: seq<Key>)
  {
    exists e :: e in tbl && e.rest == keys
  }

  lemma {:induction false} OwnIff<D>(tbl: seq<Entry<D>>)
    ensures Own(tbl).Some? <==> HasRest(tbl, [])
    ensures Own(tbl).Some? ==> Entry([], Own(tbl).value) in tbl
  {
    if tbl != [] {
      var front, last := tbl[..|tbl| - 1], tbl[|tbl| - 1];
      assert tbl == front + [last];
      OwnIff(front);
    }
  }

  lemma HasRestBelow<D>(tbl: seq<Entry<D>>, k: Key, keys: seq<Key>)
    ensures HasRest(Below(tbl, k), keys) <==> HasRest(tbl, [k] + keys)
  {
    if HasRest(Below(tbl, k), keys) {
      var e :| e in Below(tbl, k) && e.rest == keys;
      BelowMembers(tbl, k, e);
    }
    if HasRest(tbl, [k] + keys) {
      var e :| e in tbl && e.rest == [k] + keys;
      BelowMembers(tbl, k, Entry(keys, e.route));
    }
  }

  /** The names add stores for a path entered at the given depth. */
  function NamesFrom(names: map<nat, string>, segs: seq<string>, depth: nat): map<nat, string>
    requires depth > 0
    decreases |segs|
  {
    if segs == [] then names else NamesFrom(NamesAfter(names, segs[0], depth), segs[1..], depth + 1)
  }

  /**
   add on the trie of a table: it fails, changing nothing, exactly when a route with the same keys
   exists, and otherwise gives the trie of the table with just that route appended.
   */
  lemma {:induction false} AddRefines<D>(tbl: seq<Entry<D>>, segs: seq<string>, depth: nat, names: map<nat, string>,
      route: Route<D>)
    requires depth > 0 && route.names == NamesFrom(names, segs, depth)
    ensures var r := Add(TrieOf(tbl), segs, Some(route.data), depth, names);
            if HasRest(tbl, KeysOf(segs)) then r == Added(TrieOf(tbl), false)
            else r == Added(TrieOf(tbl + [Entry(KeysOf(segs), route)]), true)
    decreases |segs|
  {
    var e := Entry(KeysOf(segs), route);
    if segs == [] {
      OwnIff(tbl);
      FieldsAppend(tbl, e);
      TextChildrenAppend(tbl, e);
      assert RegChildren(tbl + [e], RegOrder(tbl)) == RegChildren(tbl, RegOrder(tbl)) by {
        forall i | 0 <= i < |RegOrder(tbl)|
          ensures RegChildren(tbl + [e], RegOrder(tbl))[i] == RegChildren(tbl, RegOrder(tbl))[i]
        {
          RegChildrenAppend(tbl, e, i);
          RegChildrenAt(tbl, RegOrder(tbl), i);
        }
      }
    } else {
      var k := KeyOf(segs[0]);
      assert KeysOf(segs) == [k] + KeysOf(segs[1..]);
      AddRefines(Below(tbl, k), segs[1..], depth + 1, NamesAfter(names, segs[0], depth), route);
      ChildOf(tbl, k);
      HasRestBelow(tbl, k, KeysOf(segs[1..]));
      if HasRest(tbl, KeysOf(segs)) {
        KeepChild(tbl, k);
      } else {
        GrowChild(tbl, e);
        assert e.rest[1..] == KeysOf(segs[1..]);
      }
    }
  }

  lemma KeepChild<D>(tbl: seq<Entry<D>>, k: Key)
    requires Below(tbl, k) != []
    ensures SetChild(TrieOf(tbl), k, TrieOf(Below(tbl, k))) == TrieOf(tbl)
  {
    BelowInhabited(tbl, k);
    ChildOf(tbl, k);
    if k.Reg? {
      var j :| 0 <= j < |RegOrder(tbl)| && RegOrder(tbl)[j] == k.regStr;
      RegChildrenAt(tbl, RegOrder(tbl), j);
    }
    SetSame(TrieOf(tbl), k);
  }

  lemma SetSame<D>(t: Trie<D>, k: Key)
    requires if k.Lit? then k.text in t.strs else FindReg(t.regs, k.regStr) < |t.regs|
    ensures SetChild(t, k, Child(t, k)) == t
  {
    if k.Lit? {
      assert t.strs[k.text := t.strs[k.text]] == t.strs;
    } else {
      var i := FindReg(t.regs, k.regStr);
      assert t.regs[i := t.regs[i]] == t.regs;
      assert RegChild(k.regStr, t.regs[i].node) == t.regs[i];
    }
  }
}
