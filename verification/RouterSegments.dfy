/** What a registered segment stands for, by its written form. */
module RouterSegments {
  import opened Wrappers
  import opened Tries
  import opened RouterRefinement
  import opened RouterChoice
  import opened RouterTheorems

  /** A named regexp `<name:re>`. */
  function Named(name: string, re: string): string
  {
    "<" + name + ":" + re + ">"
  }

  /** A name alone, `<name>`. */
  function Bare(name: string): string
  {
    "<" + name + ">"
  }

  lemma FirstColon(name: string, re: string)
    requires ':' !in name
    ensures IndexOf(name + ":" + re, ':') == |name|
  {
    var s := name + ":" + re;
    assert s[|name|] == ':' && s[..|name|] == name;
    assert forall i :: 0 <= i < |name| ==> s[i] == name[i];
    assert forall i :: |name| < i <= |s| ==> s[..i][|name|] == ':';
  }

  /** `<name:re>` matches by re, the text after the first colon, and is captured under `<name>`. */
  lemma NamedSegment(name: string, re: string)
    requires ':' !in name
    ensures IsRegexSegment(Named(name, re))
    ensures KeyOf(Named(name, re)) == Reg(re) && NameOf(Named(name, re)) == "<" + name + ">"
  {
    var inner := name + ":" + re;
    assert Named(name, re)[1..|Named(name, re)| - 1] == inner;
    FirstColon(name, re);
    assert inner[..|name|] == name && inner[|name| + 1..] == re;
  }

  /** `<name>` matches anything, and is captured under its own text. */
  lemma BareSegment(name: string)
    requires ':' !in name && name != ""
    ensures IsRegexSegment(Bare(name)) && KeyOf(Bare(name)) == Reg(".*") && NameOf(Bare(name)) == Bare(name)
  {
    assert Bare(name)[1..|Bare(name)| - 1] == name;
    assert IndexOf(name, ':') == -1;
  }

  /** Any other segment, "<>" included, is a literal. */
  lemma LiteralSegment(seg: string)
    ensures KeyOf(seg) == Lit(seg) <==> |seg| <= 2 || seg[0] != '<' || seg[|seg| - 1] != '>'
  {
  }

  predicate IsBare(seg: string, name: string)
  {
    ':' !in name && name != "" && seg == Bare(name)
  }

  predicate IsNamed(seg: string, name: string, re: string)
  {
    ':' !in name && seg == Named(name, re)
  }

  /** Those are all: a regexp segment is written in one of the two ways. */
  lemma EveryForm(seg: string) returns (bare: bool, name: string, re: string)
    requires KeyOf(seg).Reg?
    ensures if bare then IsBare(seg, name) else IsNamed(seg, name, re)
  {
    var inner := Inner(seg);
    var i := IndexOf(inner, ':');
    assert seg == "<" + inner + ">";
    bare := i < 0;
    if bare {
      name, re := inner, "";
    } else {
      name, re := inner[..i], inner[i + 1..];
      assert inner == name + ":" + re;
      assert "<" + (name + ":" + re) + ">" == Named(name, re);
    }
  }

  /** One segment of a pattern fits one segment of a request. */
  ghost predicate SegmentFits(p: string, seg: string, matches: Matcher)
  {
    || ((|p| <= 2 || p[0] != '<' || p[|p| - 1] != '>') && p == seg)
    || (exists name :: IsBare(p, name) && matches(".*", seg))
    || (exists name, re :: IsNamed(p, name, re) && matches(re, seg))
  }

  lemma SegmentFitsIs(p: string, seg: string, matches: Matcher)
    ensures KeyFits(KeyOf(p), seg, matches) <==> SegmentFits(p, seg, matches)
  {
    LiteralSegment(p);
    if KeyFits(KeyOf(p), seg, matches) && KeyOf(p).Reg? {
      var bare, name, re := EveryForm(p);
      if bare {
        BareSegment(name);
      } else {
        NamedSegment(name, re);
      }
    }
    if name :| IsBare(p, name) && matches(".*", seg) {
      BareSegment(name);
    }
    if name, re :| IsNamed(p, name, re) && matches(re, seg) {
      NamedSegment(name, re);
    }
  }

  /** A pattern fits a request if and only if its segments fit the first segments of the request, form by form. */
  lemma PatternFits(pattern: seq<string>, segs: seq<string>, matches: Matcher)
    ensures Fits(KeysOf(pattern), segs, matches) <==>
            |pattern| <= |segs| && forall i :: 0 <= i < |pattern| ==> SegmentFits(pattern[i], segs[i], matches)
  {
    if |pattern| <= |segs| {
      forall i | 0 <= i < |pattern|
        ensures KeyFits(KeysOf(pattern)[i], segs[i], matches) <==> SegmentFits(pattern[i], segs[i], matches)
      {
        SegmentFitsIs(pattern[i], segs[i], matches);
      }
    }
  }

  /** Two names for one regexp are one key, so the second registration fails. */
  lemma NamesIgnored(name: string, name': string, re: string)
    requires ':' !in name && ':' !in name'
    ensures KeysOf([Named(name, re)]) == KeysOf([Named(name', re)])
  {
    NamedSegment(name, re);
    NamedSegment(name', re);
  }

  /** A versioned metadata route: the request segment is asked of the regexp, not of the name, and captured under it. */
  lemma VersionRoute<D>(re: string, data: D, seg: string, matches: Matcher)
    ensures var f := Match(Build([Registration([Named("version", re)], data)]), [seg], matches);
            && (f.node.data.Some? <==> matches(re, seg))
            && (matches(re, seg) ==> f.node.data == Some(data) && f.node.names == map[0 := "<version>"])
  {
    var pattern := [Named("version", re)];
    var adds := [Registration(pattern, data)];
    NamedSegment("version", re);
    assert KeysOf(pattern) == [Reg(re)];
    assert Fits(KeysOf(adds[0].segs), [seg], matches) <==> matches(re, seg);
    MatchCorrect(adds, [seg], matches);
    NamesOfOne(Named("version", re));
    assert "<" + "version" + ">" == "<version>";
  }

  lemma NamesOfOne(seg: string)
    requires IsRegexSegment(seg)
    ensures SegNames([seg]) == map[0 := NameOf(seg)]
  {
    forall i: nat
      ensures i in SegNames([seg]) <==> i == 0
    {
    }
  }
}
