/**
 The router trie of pkg/appsrv/radix.go as a value, and the flat table of routes it stands for.
 Regular expressions stay uninterpreted: `matches(regStr, segment)` is a parameter.
 */
module Tries {
  import opened Wrappers

  // ------------------------------------------------------------------ segments

  /** A registered segment without its name: literals by text, regexps by regStr. */
  datatype Key = Lit(text: string) | Reg(regStr: string)

  predicate IsRegexSegment(seg: string)
  {
    |seg| > 2 && seg[0] == '<' && seg[|seg| - 1] == '>'
  }

  /** strings.IndexByte. */
  function IndexOf(s: string, c: char): (i: int)
    ensures if i == -1 then c !in s else 0 <= i < |s| && s[i] == c && c !in s[..i]
  {
    if s == [] then -1
    else if s[0] == c then 0
    else var i := IndexOf(s[1..], c); if i < 0 then -1 else i + 1
  }

  function Inner(seg: string): string
    requires IsRegexSegment(seg)
  {
    seg[1..|seg| - 1]
  }

  function KeyOf(seg: string): Key
  {
    if !IsRegexSegment(seg) then Lit(seg)
    else
      var i := IndexOf(Inner(seg), ':');
      if i < 0 then Reg(".*") else Reg(Inner(seg)[i + 1..])
  }

  function NameOf(seg: string): string
    requires IsRegexSegment(seg)
  {
    var i := IndexOf(Inner(seg), ':');
    if i < 0 then "<" + Inner(seg) + ">" else "<" + Inner(seg)[..i] + ">"
  }

  function KeysOf(segs: seq<string>): (keys: seq<Key>)
    ensures |keys| == |segs|
    ensures forall i :: 0 <= i < |segs| ==> keys[i] == KeyOf(segs[i])
  {
    if segs == [] then [] else [KeyOf(segs[0])] + KeysOf(segs[1..])
  }

  // ---------------------------------------------------------------------- trie

  datatype RegChild<D> = RegChild(regStr: string, node: Trie<D>)

  datatype Trie<D> = Trie(data: Option<D>, strs: map<string, Trie<D>>, regs: seq<RegChild<D>>, names: map<nat, string>)

  function EmptyTrie<D>(): Trie<D>
  {
    Trie(None, map[], [], map[])
  }

  /** isRegstrInRegexpNodes: position of the first child with that regStr, or the length. */
  function FindReg<D>(regs: seq<RegChild<D>>, regStr: string): (i: nat)
    ensures i <= |regs|
    ensures i < |regs| ==> regs[i].regStr == regStr
    ensures forall j :: 0 <= j < i ==> regs[j].regStr != regStr
  {
    if regs == [] then 0
    else if regs[0].regStr == regStr then 0
    else FindReg(regs[1..], regStr) + 1
  }

  /** The child for a key, or the empty node that add creates for it. */
  function Child<D>(t: Trie<D>, k: Key): Trie<D>
  {
    match k
    case Lit(s) => if s in t.strs then t.strs[s] else EmptyTrie()
    case Reg(r) => var i := FindReg(t.regs, r); if i < |t.regs| then t.regs[i].node else EmptyTrie()
  }

  function SetChild<D>(t: Trie<D>, k: Key, c: Trie<D>): Trie<D>
  {
    match k
    case Lit(s) => t.(strs := t.strs[s := c])
    case Reg(r) =>
      var i := FindReg(t.regs, r);
      t.(regs := if i < |t.regs| then t.regs[i := RegChild(r, c)] else t.regs + [RegChild(r, c)])
  }

  /** The segment names that add hands down: the map entry is written at depth - 1. */
  function NamesAfter(names: map<nat, string>, seg: string, depth: nat): map<nat, string>
    requires depth > 0
  {
    if IsRegexSegment(seg) then names[depth - 1 := NameOf(seg)] else names
  }

  datatype Added<D> = Added(trie: Trie<D>, ok: bool)

  /** RadixNode.add. */
  function Add<D>(t: Trie<D>, segs: seq<string>, data: Option<D>, depth: nat, names: map<nat, string>): Added<D>
    requires depth > 0
    decreases |segs|
  {
    if segs == [] then
      if t.data.Some? then Added(t, false) else Added(t.(data := data, names := names), true)
    else
      var k := KeyOf(segs[0]);
      var r := Add(Child(t, k), segs[1..], data, depth + 1, NamesAfter(names, segs[0], depth));
      Added(SetChild(t, k, r.trie), r.ok)
  }

  datatype Found<D> = Found(node: Trie<D>, full: bool)

  /** RadixNode.match: the node is always some node, possibly one without data. */
  function Match<D>(t: Trie<D>, segs: seq<string>, matches: (string, string) -> bool): Found<D>
    decreases |segs|, 1, 0
  {
    if segs == [] then Found(t, true)
    else if t.strs == map[] && t.regs == [] then Found(t, false)
    else if segs[0] in t.strs && Match(t.strs[segs[0]], segs[1..], matches).node.data.Some? then
      Found(Match(t.strs[segs[0]], segs[1..], matches).node, true)
    else Scan(t, segs, matches, 0, None)
  }

  /** The loop over regexp children, with the first partial match kept in `tmp`. */
  function Scan<D>(t: Trie<D>, segs: seq<string>, matches: (string, string) -> bool, i: nat,
      tmp: Option<Trie<D>>): Found<D>
    requires segs != [] && i <= |t.regs|
    decreases |segs|, 0, |t.regs| - i
  {
    if i == |t.regs| then
      if tmp.Some? then Found(tmp.value, false) else Found(t, false)
    else if !matches(t.regs[i].regStr, segs[0]) then Scan(t, segs, matches, i + 1, tmp)
    else
      var r := Match(t.regs[i].node, segs[1..], matches);
      if r.node.data.None? then Scan(t, segs, matches, i + 1, tmp)
      else if r.full then r
      else if tmp.Some? then Scan(t, segs, matches, i + 1, tmp)
      else Scan(t, segs, matches, i + 1, Some(r.node))
  }

  // ---------------------------------------------------------------- flat table

  datatype Route<D> = Route(keys: seq<Key>, data: D, names: map<nat, string>)

  /** A route with the part of its keys that is still to be matched. */
  datatype Entry<D> = Entry(rest: seq<Key>, route: Route<D>)

  /** The table seen below key k: what is left of the routes that begin with k, in order. */
  function Below<D>(tbl: seq<Entry<D>>, k: Key): (r: seq<Entry<D>>)
    ensures Weight(r) + |r| <= Weight(tbl)
  {
    if tbl == [] then []
    else
      var last := tbl[|tbl| - 1];
      var r := Below(tbl[..|tbl| - 1], k);
      if last.rest != [] && last.rest[0] == k then
        var r' := r + [Entry(last.rest[1..], last.route)];
        assert r'[..|r|] == r;
        r'
      else r
  }

  /** Number of keys still to be matched in all. */
  function Weight<D>(tbl: seq<Entry<D>>): nat
  {
    if tbl == [] then 0 else Weight(tbl[..|tbl| - 1]) + |tbl[|tbl| - 1].rest|
  }

  /** The route that ends here, if any. */
  function Own<D>(tbl: seq<Entry<D>>): Option<Route<D>>
  {
    if tbl == [] then None
    else
      var r := Own(tbl[..|tbl| - 1]);
      if r.Some? then r
      else if tbl[|tbl| - 1].rest == [] then Some(tbl[|tbl| - 1].route)
      else None
  }

  /** The first regexps of the routes, in order of first registration. */
  function RegOrder<D>(tbl: seq<Entry<D>>): seq<string>
  {
    if tbl == [] then []
    else
      var r, last := RegOrder(tbl[..|tbl| - 1]), tbl[|tbl| - 1];
      if last.rest != [] && last.rest[0].Reg? && last.rest[0].regStr !in r then r + [last.rest[0].regStr] else r
  }

  function FirstTexts<D>(tbl: seq<Entry<D>>): set<string>
  {
    if tbl == [] then {}
    else
      var last := tbl[|tbl| - 1];
      FirstTexts(tbl[..|tbl| - 1]) + if last.rest != [] && last.rest[0].Lit? then {last.rest[0].text} else {}
  }
}
