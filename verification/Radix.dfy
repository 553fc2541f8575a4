/** RadixNode in place (pkg/appsrv/radix.go): linked nodes whose abstract value is a Trie. */
module Radix {
  import opened Wrappers
  import opened Tries

  datatype RegexpNode<D> = RegexpNode(regStr: string, node: RadixNode<D>)

  /** isRegstrInRegexpNodes. */
  method FindNode<D>(nodes: seq<RegexpNode<D>>, regStr: string) returns (i: nat)
    ensures i <= |nodes|
    ensures i < |nodes| ==> nodes[i].regStr == regStr
    ensures forall j :: 0 <= j < i ==> nodes[j].regStr != regStr
  {
    i := 0;
    while i < |nodes| && nodes[i].regStr != regStr
      invariant i <= |nodes|
      invariant forall j :: 0 <= j < i ==> nodes[j].regStr != regStr
    {
      i := i + 1;
    }
  }

  lemma FindRegUnique<D>(regs: seq<RegChild<D>>, regStr: string, i: nat)
    requires i <= |regs| && (i < |regs| ==> regs[i].regStr == regStr)
    requires forall j :: 0 <= j < i ==> regs[j].regStr != regStr
    ensures FindReg(regs, regStr) == i
  {
  }

  class RadixNode<D> {
    var data: Option<D>
    var stringNodes: map<string, RadixNode<D>>
    var regexpNodes: seq<RegexpNode<D>>
    var segNames: map<nat, string>
    ghost var Repr: set<object>
    ghost var kids: map<Key, RadixNode<D>>
    ghost var trie: Trie<D>

    ghost predicate Valid()
      reads this, Repr
      ensures Valid() ==> this in Repr
      decreases Repr, 1
    {
      KidsOk() && Apart() && Linked() && Shown()
    }

    /** Child nodes are valid and lie in Repr, away from this node. */
    ghost predicate KidsOk()
      reads this, Repr
      decreases Repr, 0
    {
      && this in Repr
      && (forall k :: k in kids ==> kids[k] in Repr && kids[k].Repr <= Repr && this !in kids[k].Repr && kids[k].Valid())
    }

    /** Child nodes share nothing. */
    ghost predicate Apart()
      requires forall k :: k in kids ==> kids[k] in Repr
      reads this, Repr
    {
      forall k, k' :: k in kids && k' in kids && k != k' ==> kids[k].Repr !! kids[k'].Repr
    }

    /** The two child containers, under one key type. */
    ghost predicate Linked()
      reads this
    {
      && (forall s :: s in stringNodes ==> Lit(s) in kids && kids[Lit(s)] == stringNodes[s])
      && (forall i :: 0 <= i < |regexpNodes| ==>
          Reg(regexpNodes[i].regStr) in kids && kids[Reg(regexpNodes[i].regStr)] == regexpNodes[i].node)
      && (forall i, j :: 0 <= i < j < |regexpNodes| ==> regexpNodes[i].regStr != regexpNodes[j].regStr)
    }

    /** The trie is read off the fields. */
    ghost predicate Shown()
      requires Linked() && forall k :: k in kids ==> kids[k] in Repr
      reads this, Repr
    {
      trie.data == data && trie.names == segNames && ShownTexts() && ShownRegs()
    }

    ghost predicate ShownTexts()
      requires Linked() && forall k :: k in kids ==> kids[k] in Repr
      reads this, Repr
    {
      && trie.strs.Keys == stringNodes.Keys
      && (forall s :: s in stringNodes ==> trie.strs[s] == kids[Lit(s)].trie)
    }

    ghost predicate ShownRegs()
      requires Linked() && forall k :: k in kids ==> kids[k] in Repr
      reads this, Repr
    {
      && |trie.regs| == |regexpNodes|
      && (forall i :: 0 <= i < |regexpNodes| ==>
          trie.regs[i] == RegChild(regexpNodes[i].regStr, kids[Reg(regexpNodes[i].regStr)].trie))
    }

    constructor ()
      ensures Valid() && fresh(Repr) && trie == EmptyTrie()
    {
      data, stringNodes, regexpNodes, segNames := None, map[], [], map[];
      trie, kids := EmptyTrie(), map[];
      Repr := {this};
    }

    /**
     The child under `key` is now `next`, whose old part was `part` (empty for a new node);
     nothing outside this node and `part` has changed.
     */
    twostate predicate Replaced(new key: Key, new next: RadixNode<D>, new part: set<object>)
      reads this, Repr, next, next.Repr
    {
      && kids == old(kids)[key := next] && Repr == old(Repr) + next.Repr
      && old(Valid()) && next.Valid() && this !in next.Repr && this !in part && part <= old(Repr)
      && (forall k :: k in old(kids) && k != key ==> old(kids[k].Repr) !! part)
      && (forall o: object :: o in next.Repr && o !in part ==> !old(allocated(o)))
      && (forall o: object :: o in old(Repr) && o != this && o !in part ==> unchanged(o))
    }

    twostate lemma ReplacedKids(new key: Key, new next: RadixNode<D>, new part: set<object>)
      requires Replaced(key, next, part)
      ensures KidsOk()
    {
      assert old(KidsOk());
      forall k | k in kids
        ensures kids[k] in Repr && kids[k].Repr <= Repr && this !in kids[k].Repr && kids[k].Valid()
      {
        if k != key {
          ghost var c := old(kids[k]);
          assert old(c.Valid() && c in c.Repr && c.Repr <= Repr);
          assert forall o: object :: o in old(c.Repr) ==> o !in part && o != this;
        } else {
          assert next in next.Repr;
        }
      }
    }

    twostate lemma ReplacedApart(new key: Key, new next: RadixNode<D>, new part: set<object>)
      requires Replaced(key, next, part) && KidsOk()
      ensures Apart()
    {
      assert old(KidsOk());
      assert old(Apart());
      OthersSame(key, next, part);
    }

    /** Every other child keeps its footprint and its trie, and stays away from the replaced one. */
    twostate lemma OthersSame(new key: Key, new next: RadixNode<D>, new part: set<object>)
      requires Replaced(key, next, part)
      ensures forall k :: k in kids && k != key ==> k in old(kids) && kids[k] == old(kids[k])
      ensures forall k :: k in kids && k != key ==>
                kids[k].Repr == old(kids[k].Repr) && kids[k].trie == old(kids[k].trie) && kids[k].Repr !! next.Repr
    {
      assert old(KidsOk());
      forall k | k in kids && k != key
        ensures kids[k].Repr == old(kids[k].Repr) && kids[k].trie == old(kids[k].trie) && kids[k].Repr !! next.Repr
      {
        ghost var c := old(kids[k]);
        assert old(c in c.Repr && c.Repr <= Repr && this !in c.Repr);
        assert forall o: object :: o in old(c.Repr) ==> o !in part && o != this && old(allocated(o));
      }
    }

    /** The children of one kind are shown as before when the replaced child is of the other kind. */
    twostate lemma KeepTexts(new key: Key, new next: RadixNode<D>, new part: set<object>)
      requires Replaced(key, next, part) && KidsOk() && Linked() && key.Reg?
      requires stringNodes == old(stringNodes) && trie.strs == old(trie).strs
      ensures ShownTexts()
    {
      assert old(KidsOk() && Linked() && Shown());
      OthersSame(key, next, part);
    }

    twostate lemma KeepRegs(new key: Key, new next: RadixNode<D>, new part: set<object>)
      requires Replaced(key, next, part) && KidsOk() && Linked() && key.Lit?
      requires regexpNodes == old(regexpNodes) && trie.regs == old(trie).regs
      ensures ShownRegs()
    {
      assert old(KidsOk() && Linked() && Shown());
      OthersSame(key, next, part);
    }

    twostate lemma ReplacedTextLinked(new s: string, new next: RadixNode<D>, new part: set<object>)
      requires Replaced(Lit(s), next, part)
      requires stringNodes == old(stringNodes)[s := next] && regexpNodes == old(regexpNodes)
      ensures Linked()
    {
      assert old(Linked());
    }

    twostate lemma ReplacedTextShown(new s: string, new next: RadixNode<D>, new part: set<object>)
      requires Replaced(Lit(s), next, part) && KidsOk() && Linked()
      requires stringNodes == old(stringNodes)[s := next] && trie.strs == old(trie).strs[s := next.trie]
      ensures ShownTexts()
    {
      assert old(KidsOk() && Linked() && Shown());
      OthersSame(Lit(s), next, part);
      TextShown(s, next);
    }

    twostate lemma TextShown(new s: string, new next: RadixNode<D>)
      requires old(KidsOk() && Linked() && ShownTexts()) && KidsOk() && Linked()
      requires forall k :: k in kids && k != Lit(s) ==> k in old(kids) && kids[k].trie == old(kids[k].trie)
      requires stringNodes == old(stringNodes)[s := next] && trie.strs == old(trie).strs[s := next.trie]
      ensures ShownTexts()
    {
    }

    /** The regexp child r now stands at position i, new at the end or in its old place. */
    twostate predicate RegPlaced(new r: string, new next: RadixNode<D>, new i: nat)
      reads this
    {
      && i <= |old(regexpNodes)| && (i < |old(regexpNodes)| ==> old(regexpNodes)[i].regStr == r)
      && (forall j :: 0 <= j < |old(regexpNodes)| && j != i ==> old(regexpNodes)[j].regStr != r)
      && regexpNodes == if i < |old(regexpNodes)| then old(regexpNodes)[i := RegexpNode(r, next)]
          else old(regexpNodes) + [RegexpNode(r, next)]
    }

    twostate lemma ReplacedRegLinked(new r: string, new next: RadixNode<D>, new part: set<object>, new i: nat)
      requires Replaced(Reg(r), next, part) && RegPlaced(r, next, i) && stringNodes == old(stringNodes)
      ensures Linked()
    {
      assert old(Linked());
    }

    twostate lemma ReplacedRegShown(new r: string, new next: RadixNode<D>, new part: set<object>, new i: nat)
      requires Replaced(Reg(r), next, part) && KidsOk() && RegPlaced(r, next, i) && Linked()
      requires |old(trie).regs| == |old(regexpNodes)|
      requires trie.regs == if i < |old(regexpNodes)| then old(trie).regs[i := RegChild(r, next.trie)]
          else old(trie).regs + [RegChild(r, next.trie)]
      ensures ShownRegs()
    {
      assert old(KidsOk() && Linked() && Shown());
      OthersSame(Reg(r), next, part);
      RegShown(r, next, i);
    }

    twostate lemma RegShown(new r: string, new next: RadixNode<D>, new i: nat)
      requires old(KidsOk() && Linked() && ShownRegs()) && KidsOk() && RegPlaced(r, next, i) && Linked()
      requires forall k :: k in kids && k != Reg(r) ==> k in old(kids) && kids[k].trie == old(kids[k].trie)
      requires trie.regs == if i < |old(regexpNodes)| then old(trie).regs[i := RegChild(r, next.trie)]
          else old(trie).regs + [RegChild(r, next.trie)]
      ensures ShownRegs()
    {
    }

    twostate lemma TextReplaced(new s: string, new next: RadixNode<D>, new part: set<object>)
      requires Replaced(Lit(s), next, part)
      requires data == old(data) && segNames == old(segNames) && regexpNodes == old(regexpNodes)
      requires stringNodes == old(stringNodes)[s := next] && trie == old(trie).(strs := old(trie).strs[s := next.trie])
      ensures Valid()
    {
      assert old(KidsOk() && Linked() && Shown());
      ReplacedKids(Lit(s), next, part);
      ReplacedApart(Lit(s), next, part);
      ReplacedTextLinked(s, next, part);
      ReplacedTextShown(s, next, part);
      KeepRegs(Lit(s), next, part);
    }

    twostate lemma RegReplaced(new r: string, new next: RadixNode<D>, new part: set<object>, new i: nat)
      requires Replaced(Reg(r), next, part) && RegPlaced(r, next, i)
      requires data == old(data) && segNames == old(segNames) && stringNodes == old(stringNodes)
      requires |old(trie).regs| == |old(regexpNodes)|
      requires trie == old(trie).(regs := if i < |old(regexpNodes)| then old(trie).regs[i := RegChild(r, next.trie)]
          else old(trie).regs + [RegChild(r, next.trie)])
      ensures Valid()
    {
      assert old(KidsOk() && Linked() && Shown());
      ReplacedKids(Reg(r), next, part);
      ReplacedApart(Reg(r), next, part);
      ReplacedRegLinked(r, next, part, i);
      ReplacedRegShown(r, next, part, i);
      KeepTexts(Reg(r), next, part);
    }

    /** Takes a changed or new child into the ghost view of this node. */
    ghost method Adopt(key: Key, next: RadixNode<D>, value: Trie<D>)
      modifies this`kids, this`Repr, this`trie
      ensures kids == old(kids)[key := next] && Repr == old(Repr) + old(next.Repr) && trie == value
    {
      kids := kids[key := next];
      Repr := Repr + next.Repr;
      trie := value;
    }

    /** `part` is the footprint of an existing child, or empty when the child is a new node. */
    twostate predicate Picked(new key: Key, new next: RadixNode<D>, new part: set<object>)
      reads this, Repr, next, next.Repr
    {
      && old(Valid()) && Repr == old(Repr) && kids == old(kids) && trie == old(trie)
      && (forall o: object :: o in Repr && o != this ==> unchanged(o))
      && next.Valid() && this !in next.Repr && next.trie == Child(old(trie), key)
      && this !in part && part <= Repr && (next.Repr == part || (part == {} && fresh(next.Repr)))
      && (forall k :: k in old(kids) && k != key ==> old(kids[k].Repr) !! part)
    }

    /** The text child for s, created and linked when it is missing. */
    method TextChild(s: string) returns (next: RadixNode<D>, ghost part: set<object>)
      requires Valid()
      modifies this`stringNodes
      ensures stringNodes == old(stringNodes)[s := next] && Picked(Lit(s), next, part)
    {
      if s in stringNodes {
        next := stringNodes[s];
        part := next.Repr;
      } else {
        next := new RadixNode<D>();
        part := {};
        stringNodes := stringNodes[s := next];
      }
    }

    /** The regexp child for r and its position, appended when it is missing. */
    method RegexpChild(r: string) returns (next: RadixNode<D>, ghost part: set<object>, ghost i: nat)
      requires Valid()
      modifies this`regexpNodes
      ensures RegPlaced(r, next, i) && i == FindReg(old(trie).regs, r) && |old(trie).regs| == |old(regexpNodes)|
      ensures Picked(Reg(r), next, part)
    {
      var j := FindNode(regexpNodes, r);
      i := j;
      FindRegUnique(trie.regs, r, i);
      if j < |regexpNodes| {
        next := regexpNodes[j].node;
        part := next.Repr;
      } else {
        next := new RadixNode<D>();
        part := {};
        regexpNodes := regexpNodes + [RegexpNode(r, next)];
      }
    }

    method AddText(segments: seq<string>, value: Option<D>, depth: nat, names: map<nat, string>) returns (ok: bool)
      requires Valid() && depth > 0 && segments != [] && !IsRegexSegment(segments[0])
      modifies Repr
      ensures Valid() && fresh(Repr - old(Repr)) && old(Repr) <= Repr
      ensures Added(trie, ok) == Tries.Add(old(trie), segments, value, depth, names)
      decreases |segments|, 0
    {
      var s := segments[0];
      ghost var before := trie;
      var next, part := TextChild(s);
      ok := next.Add(segments[1..], value, depth + 1, names);
      Adopt(Lit(s), next, before.(strs := before.strs[s := next.trie]));
      TextReplaced(s, next, part);
    }

    method AddRegexp(segments: seq<string>, value: Option<D>, depth: nat, names: map<nat, string>) returns (ok: bool)
      requires Valid() && depth > 0 && segments != [] && IsRegexSegment(segments[0])
      modifies Repr
      ensures Valid() && fresh(Repr - old(Repr)) && old(Repr) <= Repr
      ensures Added(trie, ok) == Tries.Add(old(trie), segments, value, depth, names)
      decreases |segments|, 0
    {
      var r := KeyOf(segments[0]).regStr;
      ghost var before := trie;
      var next, part, i := RegexpChild(r);
      ok := next.Add(segments[1..], value, depth + 1, NamesAfter(names, segments[0], depth));
      Adopt(Reg(r), next, SetChild(before, Reg(r), next.trie));
      RegReplaced(r, next, part, i);
    }

    /** Data and names are no concern of the children. */
    twostate lemma DataReplaced()
      requires old(Valid()) && Repr == old(Repr) && kids == old(kids)
      requires stringNodes == old(stringNodes) && regexpNodes == old(regexpNodes)
      requires trie == old(trie).(data := data, names := segNames)
      requires forall o: object :: o in old(Repr) && o != this ==> unchanged(o)
      ensures Valid()
    {
      assert old(KidsOk() && Apart() && Linked() && Shown());
      forall k | k in kids
        ensures kids[k] in Repr && kids[k].Repr <= Repr && this !in kids[k].Repr && kids[k].Valid()
        ensures kids[k].Repr == old(kids[k].Repr) && kids[k].trie == old(kids[k].trie)
      {
        ghost var c := old(kids[k]);
        assert old(c.Valid() && c in c.Repr && c.Repr <= Repr && this !in c.Repr);
      }
    }

    /** The end of a pattern: a node takes data once. */
    method AddHere(value: Option<D>, names: map<nat, string>) returns (ok: bool)
      requires Valid()
      modifies this
      ensures Valid() && Repr == old(Repr) && ok == old(data).None?
      ensures trie == if ok then old(trie).(data := value, names := names) else old(trie)
    {
      ok := data.None?;
      if ok {
        data := value;
        segNames := names;
        trie := trie.(data := value, names := names);
        DataReplaced();
      }
    }

    /** RadixNode.add. */
    method Add(segments: seq<string>, value: Option<D>, depth: nat, names: map<nat, string>) returns (ok: bool)
      requires Valid() && depth > 0
      modifies Repr
      ensures Valid() && fresh(Repr - old(Repr)) && old(Repr) <= Repr
      ensures Added(trie, ok) == Tries.Add(old(trie), segments, value, depth, names)
      decreases |segments|, 1
    {
      if |segments| == 0 {
        Containers();
        ok := AddHere(value, names);
      } else if IsRegexSegment(segments[0]) {
        ok := AddRegexp(segments, value, depth, names);
      } else {
        ok := AddText(segments, value, depth, names);
      }
    }

    /** A child in its container is a valid node of the subtree, and its trie stands in ours. */
    lemma TextNode(s: string)
      requires Valid() && s in stringNodes
      ensures stringNodes[s].Valid() && stringNodes[s].Repr <= Repr && s in trie.strs
          && stringNodes[s].trie == trie.strs[s]
    {
    }

    lemma RegexpNodeAt(i: nat)
      requires Valid() && i < |regexpNodes|
      ensures regexpNodes[i].node.Valid() && regexpNodes[i].node.Repr <= Repr && |trie.regs| == |regexpNodes|
      ensures trie.regs[i] == RegChild(regexpNodes[i].regStr, regexpNodes[i].node.trie)
    {
    }

    lemma Containers()
      requires Valid()
      ensures trie.data == data && trie.names == segNames
      ensures trie.strs.Keys == stringNodes.Keys && |trie.regs| == |regexpNodes|
    {
    }

    /** RadixNode.match. */
    method Search(segments: seq<string>, matches: (string, string) -> bool) returns (node: RadixNode<D>, full: bool)
      requires Valid()
      ensures node in Repr && node.Valid()
      ensures Tries.Match(trie, segments, matches) == Found(node.trie, full)
      decreases |segments|, 1
    {
      Containers();
      if |segments| == 0 {
        return this, true;
      } else if |stringNodes| == 0 && |regexpNodes| == 0 {
        assert trie.strs == map[];
        return this, false;
      }
      if segments[0] in stringNodes {
        TextNode(segments[0]);
        var rnode, _ := stringNodes[segments[0]].Search(segments[1..], matches);
        rnode.Containers();
        if rnode.data.Some? {
          return rnode, true;
        }
      }
      node, full := SearchRegexps(segments, matches);
      assert stringNodes.Keys == trie.strs.Keys;
    }

    /** The loop over regexp children. */
    method SearchRegexps(segments: seq<string>, matches: (string, string) -> bool)
        returns (node: RadixNode<D>, full: bool)
      requires Valid() && segments != []
      ensures node in Repr && node.Valid()
      ensures Scan(trie, segments, matches, 0, None) == Found(node.trie, full)
      decreases |segments|, 0
    {
      Containers();
      var nodeTmp: Option<RadixNode<D>> := None;
      var i := 0;
      while i < |regexpNodes|
        invariant i <= |regexpNodes|
        invariant nodeTmp.Some? ==> nodeTmp.value in Repr && nodeTmp.value.Valid()
        invariant Scan(trie, segments, matches, 0, None)
               == Scan(trie, segments, matches, i, if nodeTmp.Some? then Some(nodeTmp.value.trie) else None)
      {
        RegexpNodeAt(i);
        if matches(regexpNodes[i].regStr, segments[0]) {
          var rnode, fullMatch := regexpNodes[i].node.Search(segments[1..], matches);
          rnode.Containers();
          if rnode.data.Some? {
            if fullMatch {
              return rnode, fullMatch;
            } else if nodeTmp.None? {
              nodeTmp := Some(rnode);
            }
          }
        }
        i := i + 1;
      }
      if nodeTmp.Some? {
        return nodeTmp.value, false;
      } else {
        return this, false;
      }
    }
  }
}
