/**
 The header-list normaliser of the CORS middleware (pkg/appsrv/cors.go): one pass over the bytes of
 Access-Control-Request-Headers, whose result is joined with ", " into Access-Control-Allow-Headers.
 A char stands for a byte.
 */
module Cors {

  predicate IsLower(c: char) { 'a' <= c <= 'z' }

  predicate IsUpper(c: char) { 'A' <= c <= 'Z' }

  predicate IsMark(c: char) { c == '-' || c == '_' }

  predicate IsHeader(c: char)
  {
    IsLower(c) || IsUpper(c) || IsMark(c) || '0' <= c <= '9'
  }

  predicate IsSeparator(c: char) { c == ' ' || c == ',' }

  function Cased(c: char, upper: bool): char
  {
    if upper && IsLower(c) then (c as int - 32) as char
    else if !upper && IsUpper(c) then (c as int + 32) as char
    else c
  }

  // ------------------------------------------------------------------ the bytes

  const LOWER := "abcdefghijklmnopqrstuvwxyz"
  const UPPER := "ABCDEFGHIJKLMNOPQRSTUVWXYZ"
  const DIGITS := "0123456789"

  lemma LowerBytes(c: char)
    ensures IsLower(c) <==> c in LOWER
  {
    if IsLower(c) {
      assert LOWER[c as int - 97] == c;
    }
  }

  lemma UpperBytes(c: char)
    ensures IsUpper(c) <==> c in UPPER
  {
    if IsUpper(c) {
      assert UPPER[c as int - 65] == c;
    }
  }

  /** The bytes of a header are the letters, the digits, the hyphen and the underscore; a space or a comma ends it. */
  lemma HeaderBytes(c: char)
    ensures IsHeader(c) <==> c in LOWER || c in UPPER || c in DIGITS || c in "-_"
    ensures IsMark(c) <==> c in "-_"
    ensures IsSeparator(c) <==> c in " ,"
  {
    LowerBytes(c);
    UpperBytes(c);
    if '0' <= c <= '9' {
      assert DIGITS[c as int - 48] == c;
    }
  }

  lemma Alphabets(i: nat)
    requires i < 26
    ensures LOWER[i] as int == 97 + i && UPPER[i] as int == 65 + i
  {
  }

  /** Casing takes a letter to the same letter of the other alphabet. */
  lemma CasedLetter(i: nat, c: char, upper: bool)
    requires i < 26 && (c == LOWER[i] || c == UPPER[i])
    ensures Cased(c, upper) == if upper then UPPER[i] else LOWER[i]
  {
    Alphabets(i);
  }

  /** Every other byte is left alone. */
  lemma CasedOther(c: char, upper: bool)
    requires c !in LOWER && c !in UPPER
    ensures Cased(c, upper) == c
  {
    LowerBytes(c);
    UpperBytes(c);
  }

  // ---------------------------------------------------------------- the meaning

  /** Length of the stretch of non-separators s begins with. */
  function RunLength(s: string): (n: nat)
    ensures n <= |s|
  {
    if s == [] || IsSeparator(s[0]) then 0 else 1 + RunLength(s[1..])
  }

  /** The maximal stretches of non-separators, in order. */
  function Runs(s: string): seq<string>
    decreases |s|
  {
    if s == [] then []
    else if IsSeparator(s[0]) then Runs(s[1..])
    else [s[..RunLength(s)]] + Runs(s[RunLength(s)..])
  }

  /** Canonical case: a letter is upper case exactly at the start and after a mark. */
  function Canonical(t: string): string
  {
    seq(|t|, k requires 0 <= k < |t| => Cased(t[k], k == 0 || IsMark(t[k - 1])))
  }

  function CanonicalAll(ts: seq<string>): seq<string>
  {
    seq(|ts|, k requires 0 <= k < |ts| => Canonical(ts[k]))
  }

  /** Whether a letter that follows r is put in upper case: r's last byte decides, or up where r is empty. */
  predicate RaisesNext(r: string, up: bool)
  {
    if r == [] then up else IsMark(r[|r| - 1])
  }

  /** What is kept of one run: its header bytes, cased by the byte before each of them. */
  function Kept(r: string, up: bool): string
  {
    if r == [] then []
    else
      var front, c := r[..|r| - 1], r[|r| - 1];
      Kept(front, up) + if IsHeader(c) then [Cased(c, RaisesNext(front, up))] else []
  }

  /** A run of which nothing is kept yields no header and takes the upper case off the next one's start. */
  function Headers(runs: seq<string>, up: bool): seq<string>
  {
    if runs == [] then []
    else
      var h := Kept(runs[0], up);
      Flushed(h) + Headers(runs[1..], h != [])
  }

  function Join(ts: seq<string>): string
  {
    if ts == [] then "" else if |ts| == 1 then ts[0] else ts[0] + ", " + Join(ts[1..])
  }

  /** The joined header list, byte for byte: each header follows a comma and a space, except the first. */
  lemma {:induction false} JoinAppend(ts: seq<string>, t: string)
    ensures Join([]) == "" && Join([t]) == t
    ensures ts != [] ==> Join(ts + [t]) == Join(ts) + ", " + t
  {
    if |ts| > 1 {
      JoinAppend(ts[1..], t);
      assert (ts + [t])[1..] == ts[1..] + [t];
      assert Join(ts + [t]) == ts[0] + ", " + Join(ts[1..] + [t]);
    } else if |ts| == 1 {
      assert (ts + [t])[1..] == [t];
    }
  }

  // ----------------------------------------------------------------- the parser

  /** The header byte b, cased, or nothing. */
  function Addition(b: char, upper: bool): string
  {
    if IsHeader(b) then [Cased(b, upper)] else []
  }

  function Flushed(h: string): seq<string>
  {
    if h == [] then [] else [h]
  }

  /** What the loop still appends, from the bytes to come, the header in progress and the case of the next letter. */
  function Scan(s: string, h: string, upper: bool): seq<string>
  {
    if s == [] then Flushed(h)
    else if IsSeparator(s[0]) then Flushed(h) + Scan(s[1..], [], h != [] || upper)
    else Scan(s[1..], h + Addition(s[0], upper), IsMark(s[0]))
  }

  /** Before turn i, the headers out and those to come are all there is. */
  ghost predicate AtTurn(s: string, i: nat, headers: seq<string>, h: string, upper: bool)
  {
    i <= |s| && headers + Scan(s[i..], h, upper) == Scan(s, [], true)
  }

  lemma Begins(s: string)
    ensures AtTurn(s, 0, [], [], true)
  {
    assert s[0..] == s;
  }

  lemma Ends(s: string, i: nat, headers: seq<string>, h: string, upper: bool)
    requires i < |s| && AtTurn(s, i, headers, h, upper) && (IsSeparator(s[i]) || i == |s| - 1)
    ensures var h' := h + Addition(s[i], upper);
            if h' == [] then AtTurn(s, i + 1, headers, [], upper) else AtTurn(s, i + 1, headers + [h'], [], true)
  {
    var h' := h + Addition(s[i], upper);
    var rest := Scan(s[i + 1..], [], h' != [] || upper);
    assert s[i..][1..] == s[i + 1..];
    if IsSeparator(s[i]) {
      assert h' == h;
    } else {
      assert rest == [] && Scan(s[i + 1..], h', IsMark(s[i])) == Flushed(h') + rest;
    }
    assert headers + (Flushed(h') + rest) == if h' == [] then headers + rest else headers + [h'] + rest;
  }

  lemma GoesOn(s: string, i: nat, headers: seq<string>, h: string, upper: bool)
    requires i < |s| && AtTurn(s, i, headers, h, upper) && !IsSeparator(s[i])
    ensures AtTurn(s, i + 1, headers, h + Addition(s[i], upper), IsMark(s[i]))
  {
    assert s[i..][1..] == s[i + 1..];
  }

  lemma Done(s: string, headers: seq<string>, upper: bool)
    requires AtTurn(s, |s|, headers, [], upper)
    ensures headers == Headers(Runs(s), true)
  {
    ScanMeaning([], s, true);
    assert [] + s == s;
  }

  /** parseHeaderList, on every input. */
  method ParseHeaderList(headerList: string) returns (headers: seq<string>)
    ensures headers == Headers(Runs(headerList), true)
  {
    var l := |headerList|;
    var h: string := [];
    var upper := true;
    headers := [];
    Begins(headerList);
    for i := 0 to l
      invariant AtTurn(headerList, i, headers, h, upper)
      invariant i == l ==> h == []
    {
      var b := headerList[i];
      ghost var before := h;
      if 'a' <= b <= 'z' {
        h := h + [if upper then (b as int - 32) as char else b];
      } else if 'A' <= b <= 'Z' {
        h := h + [if !upper then (b as int + 32) as char else b];
      } else if b == '-' || b == '_' || '0' <= b <= '9' {
        h := h + [b];
      }
      assert h == before + Addition(b, upper);
      if b == ' ' || b == ',' || i == l - 1 {
        Ends(headerList, i, headers, before, upper);
        if |h| > 0 {
          headers := headers + [h];
          h := [];
          upper := true;
        }
      } else {
        GoesOn(headerList, i, headers, before, upper);
        upper := b == '-' || b == '_';
      }
    }
    Done(headerList, headers, upper);
  }

  /** The scan from inside a run yields what its bytes mean. */
  lemma {:induction false} ScanMeaning(run: string, rest: string, up: bool)
    requires forall k :: 0 <= k < |run| ==> !IsSeparator(run[k])
    ensures Scan(rest, Kept(run, up), RaisesNext(run, up)) == Headers(Runs(run + rest), up)
    decreases |rest|
  {
    if rest == [] || IsSeparator(rest[0]) {
      if run == [] {
        assert run + rest == rest;
      } else {
        HeadRun(run, rest, up);
        if Kept(run, up) == [] {
          NothingKept(run, up);
        }
      }
      if rest != [] {
        ScanMeaning([], rest[1..], if run == [] then up else Kept(run, up) != []);
        assert [] + rest[1..] == rest[1..];
      }
    } else {
      var longer := run + [rest[0]];
      assert longer + rest[1..] == run + rest && longer[..|run|] == run;
      ScanMeaning(longer, rest[1..], up);
    }
  }

  lemma HeadRun(run: string, rest: string, up: bool)
    requires run != [] && (forall k :: 0 <= k < |run| ==> !IsSeparator(run[k])) && (rest == [] || IsSeparator(rest[0]))
    ensures Headers(Runs(run + rest), up) == Flushed(Kept(run, up)) + Headers(Runs(rest), Kept(run, up) != [])
  {
    RunsHead(run, rest);
    assert ([run] + Runs(rest))[1..] == Runs(rest);
  }

  /** The last byte of a run of which nothing is kept is no mark. */
  lemma NothingKept(r: string, up: bool)
    requires r != [] && Kept(r, up) == []
    ensures !RaisesNext(r, up)
  {
    assert !IsHeader(r[|r| - 1]);
  }

  lemma {:induction false} RunLengthIs(a: string, b: string)
    requires (forall k :: 0 <= k < |a| ==> !IsSeparator(a[k])) && (b == [] || IsSeparator(b[0]))
    ensures RunLength(a + b) == |a|
  {
    if a == [] {
      assert a + b == b;
    } else {
      assert (a + b)[1..] == a[1..] + b;
      RunLengthIs(a[1..], b);
    }
  }

  lemma RunsHead(a: string, b: string)
    requires a != [] && (forall k :: 0 <= k < |a| ==> !IsSeparator(a[k])) && (b == [] || IsSeparator(b[0]))
    ensures Runs(a + b) == [a] + Runs(b)
  {
    RunLengthIs(a, b);
    assert (a + b)[..|a|] == a && (a + b)[|a|..] == b;
  }

  // ------------------------------------------------------------- canonical case

  ghost predicate Clean(t: string)
  {
    forall k :: 0 <= k < |t| ==> IsHeader(t[k])
  }

  /** Whether the last header byte of r, if it has any, is a mark. */
  predicate MarkedOrNone(r: string)
  {
    r == [] || if IsHeader(r[|r| - 1]) then IsMark(r[|r| - 1]) else MarkedOrNone(r[..|r| - 1])
  }

  /**
   No letter of r slips. A letter slips when it begins its header or follows a mark in it, but the byte right before
   it is neither a mark nor a start in upper case.
   */
  predicate Slipless(r: string, up: bool)
  {
    r == [] ||
    var front, c := r[..|r| - 1], r[|r| - 1];
    Slipless(front, up) && ((IsLower(c) || IsUpper(c)) && MarkedOrNone(front) ==> RaisesNext(front, up))
  }

  lemma {:induction false} KeptEnd(r: string, up: bool)
    ensures MarkedOrNone(r) <==> Kept(r, up) == [] || IsMark(Kept(r, up)[|Kept(r, up)| - 1])
    ensures RaisesNext(r, up) ==> MarkedOrNone(r)
  {
    if r != [] {
      KeptEnd(r[..|r| - 1], up);
    }
  }

  lemma {:induction false} KeptHeaders(r: string, up: bool)
    ensures Clean(Kept(r, up))
  {
    if r != [] {
      KeptHeaders(r[..|r| - 1], up);
    }
  }

  lemma CanonicalAppend(t: string, c: char)
    ensures Canonical(t + [c]) == Canonical(t) + [Cased(c, t == [] || IsMark(t[|t| - 1]))]
  {
  }

  lemma CasedTwice(c: char, given: bool, wanted: bool)
    requires IsHeader(c)
    ensures Cased(Cased(c, given), wanted) == Cased(c, given) <==> given == wanted || !(IsLower(c) || IsUpper(c))
    ensures IsMark(Cased(c, given)) <==> IsMark(c)
  {
  }

  /** Byte by byte, t is in canonical case. */
  predicate InCase(t: string)
  {
    t == [] ||
    var front, c := t[..|t| - 1], t[|t| - 1];
    InCase(front) && Cased(c, front == [] || IsMark(front[|front| - 1])) == c
  }

  lemma {:induction false} InCaseIs(t: string)
    ensures InCase(t) <==> Canonical(t) == t
  {
    if t != [] {
      var front, c := t[..|t| - 1], t[|t| - 1];
      InCaseIs(front);
      assert t == front + [c];
      CanonicalAppend(front, c);
      AppendSame(Canonical(front), front, Cased(c, front == [] || IsMark(front[|front| - 1])), c);
    }
  }

  /** What is kept of a run is in canonical case exactly when no letter of it slips. */
  lemma {:induction false} KeptCanonical(r: string, up: bool)
    ensures InCase(Kept(r, up)) <==> Slipless(r, up)
  {
    if r != [] {
      var front, c := r[..|r| - 1], r[|r| - 1];
      var t, given := Kept(front, up), RaisesNext(front, up);
      KeptCanonical(front, up);
      KeptEnd(front, up);
      if IsHeader(c) {
        assert Kept(r, up)[..|t|] == t;
        CasedTwice(c, given, MarkedOrNone(front));
      } else {
        assert Kept(r, up) == t;
      }
    }
  }

  lemma AppendSame(a: string, b: string, x: char, y: char)
    requires |a| == |b|
    ensures a + [x] == b + [y] <==> a == b && x == y
  {
    if a + [x] == b + [y] {
      assert a == (a + [x])[..|a|] == b;
      assert x == (a + [x])[|a|];
    }
  }

  /** A run of header bytes alone is kept whole, in canonical case. */
  lemma {:induction false} KeptClean(r: string)
    requires Clean(r)
    ensures Kept(r, true) == Canonical(r)
  {
    if r != [] {
      var n := |r| - 1;
      KeptClean(r[..n]);
      CanonicalAppend(r[..n], r[n]);
      assert r == r[..n] + [r[n]];
    }
  }

  // ----------------------------------------------------------------- round trip

  ghost predicate CleanAll(ts: seq<string>)
  {
    forall i :: 0 <= i < |ts| ==> ts[i] != [] && Clean(ts[i])
  }

  lemma {:induction false} CleanHeaders(ts: seq<string>)
    requires CleanAll(ts)
    ensures Headers(ts, true) == CanonicalAll(ts)
  {
    if ts != [] {
      KeptClean(ts[0]);
      CleanHeaders(ts[1..]);
    }
  }

  lemma SkipSeparators(j: string)
    ensures Runs(", " + j) == Runs(j)
  {
    var rest := ", " + j;
    assert IsSeparator(rest[0]) && rest[1..] == " " + j;
    assert IsSeparator((" " + j)[0]) && (" " + j)[1..] == j;
  }

  /** A clean token before a separator, or at the end, is a run. */
  lemma TokenFirst(t: string, rest: string)
    requires t != [] && Clean(t) && (rest == [] || IsSeparator(rest[0]))
    ensures Runs(t + rest) == [t] + Runs(rest)
  {
    RunsHead(t, rest);
  }

  lemma JoinFirst(t: string, ts: seq<string>)
    requires t != [] && Clean(t) && ts != []
    ensures Runs(Join([t] + ts)) == [t] + Runs(Join(ts))
  {
    var rest := ", " + Join(ts);
    assert ([t] + ts)[1..] == ts && t + ", " + Join(ts) == t + rest;
    TokenFirst(t, rest);
    SkipSeparators(Join(ts));
  }

  lemma {:induction false} RunsJoin(ts: seq<string>)
    requires CleanAll(ts)
    ensures Runs(Join(ts)) == ts
  {
    if |ts| == 1 {
      TokenFirst(ts[0], []);
      assert ts[0] + [] == ts[0] && Runs([]) == [];
    } else if ts != [] {
      assert ts == [ts[0]] + ts[1..];
      RunsJoin(ts[1..]);
      JoinFirst(ts[0], ts[1..]);
    }
  }

  /** Joining clean headers and parsing again puts each of them in canonical case. */
  lemma Rejoined(ts: seq<string>)
    requires CleanAll(ts)
    ensures Headers(Runs(Join(ts)), true) == CanonicalAll(ts)
  {
    RunsJoin(ts);
    CleanHeaders(ts);
  }

  lemma {:induction false} HeadersClean(runs: seq<string>, up: bool)
    ensures CleanAll(Headers(runs, up))
  {
    if runs != [] {
      KeptHeaders(runs[0], up);
      HeadersClean(runs[1..], Kept(runs[0], up) != []);
    }
  }

  /** No letter slips in any run; a run without header bytes lowers the start of the next one. */
  ghost predicate NoSlip(runs: seq<string>, up: bool)
  {
    runs == [] ||
    (Slipless(runs[0], up) && NoSlip(runs[1..], exists k :: 0 <= k < |runs[0]| && IsHeader(runs[0][k])))
  }

  lemma {:induction false} KeptSome(r: string, up: bool)
    ensures Kept(r, up) != [] <==> exists k :: 0 <= k < |r| && IsHeader(r[k])
  {
    if r != [] {
      KeptSome(r[..|r| - 1], up);
      if IsHeader(r[|r| - 1]) {
        assert Kept(r, up) != [];
      }
    }
  }

  ghost predicate AllInCase(ts: seq<string>)
  {
    forall i :: 0 <= i < |ts| ==> InCase(ts[i])
  }

  lemma AllInCaseIs(ts: seq<string>)
    ensures AllInCase(ts) <==> CanonicalAll(ts) == ts
  {
    forall i | 0 <= i < |ts|
      ensures InCase(ts[i]) <==> CanonicalAll(ts)[i] == ts[i]
    {
      InCaseIs(ts[i]);
    }
  }

  lemma {:induction false} HeadersCanonical(runs: seq<string>, up: bool)
    ensures AllInCase(Headers(runs, up)) <==> NoSlip(runs, up)
  {
    if runs != [] {
      var h := Kept(runs[0], up);
      KeptSome(runs[0], up);
      KeptCanonical(runs[0], up);
      HeadersCanonical(runs[1..], h != []);
      AllInCaseFirst(h, Headers(runs[1..], h != []));
    }
  }

  lemma AllInCaseFirst(h: string, rest: seq<string>)
    ensures AllInCase(Flushed(h) + rest) <==> InCase(h) && AllInCase(rest)
  {
    if h == [] {
      assert Flushed(h) + rest == rest;
    } else {
      var all := [h] + rest;
      assert all[0] == h && forall i :: 0 <= i < |rest| ==> rest[i] == all[i + 1];
    }
  }

  /** parse(join(parse(s))) == parse(s) exactly when no letter of s slips. */
  lemma RoundTrip(s: string)
    ensures Headers(Runs(Join(Headers(Runs(s), true))), true) == Headers(Runs(s), true) <==> NoSlip(Runs(s), true)
  {
    HeadersClean(Runs(s), true);
    Rejoined(Headers(Runs(s), true));
    HeadersCanonical(Runs(s), true);
    AllInCaseIs(Headers(Runs(s), true));
  }

  /** Whatever the input, the round trip holds from the second parse on. */
  lemma SettlesInOne(s: string)
    ensures var once := Headers(Runs(Join(Headers(Runs(s), true))), true);
            Headers(Runs(Join(once)), true) == once
  {
    var ts := Headers(Runs(s), true);
    HeadersClean(Runs(s), true);
    Rejoined(ts);
    var once := CanonicalAll(ts);
    forall i | 0 <= i < |ts|
      ensures Clean(Canonical(ts[i])) && Canonical(Canonical(ts[i])) == Canonical(ts[i])
    {
      KeptClean(ts[i]);
      KeptHeaders(ts[i], true);
      CanonicalTwice(ts[i]);
    }
    Rejoined(once);
  }

  lemma CanonicalTwice(t: string)
    requires Clean(t)
    ensures Canonical(Canonical(t)) == Canonical(t)
  {
    CleanSlipless(t);
    KeptCanonical(t, true);
    KeptClean(t);
    InCaseIs(Kept(t, true));
  }

  lemma {:induction false} CleanSlipless(t: string)
    requires Clean(t)
    ensures Slipless(t, true)
  {
    if t != [] {
      CleanSlipless(t[..|t| - 1]);
    }
  }

  /**
   Inputs of header bytes, spaces and commas: the headers are the maximal runs in canonical case, and the round trip
   holds.
   */
  lemma CleanInput(s: string)
    requires forall k :: 0 <= k < |s| ==> IsHeader(s[k]) || IsSeparator(s[k])
    ensures Headers(Runs(s), true) == CanonicalAll(Runs(s))
    ensures Headers(Runs(Join(Headers(Runs(s), true))), true) == Headers(Runs(s), true)
  {
    RunsClean(s);
    CleanHeaders(Runs(s));
    var ts := Runs(s);
    forall i | 0 <= i < |ts|
      ensures Canonical(Canonical(ts[i])) == Canonical(ts[i])
    {
      CanonicalTwice(ts[i]);
    }
    HeadersClean(ts, true);
    Rejoined(Headers(ts, true));
  }

  lemma {:induction false} RunsClean(s: string)
    requires forall k :: 0 <= k < |s| ==> IsHeader(s[k]) || IsSeparator(s[k])
    ensures CleanAll(Runs(s))
    decreases |s|
  {
    if s != [] {
      if IsSeparator(s[0]) {
        RunsClean(s[1..]);
      } else {
        RunPrefix(s);
        RunsClean(s[RunLength(s)..]);
      }
    }
  }

  lemma {:induction false} RunPrefix(s: string)
    ensures forall k :: 0 <= k < RunLength(s) ==> !IsSeparator(s[k])
  {
    if s != [] && !IsSeparator(s[0]) {
      RunPrefix(s[1..]);
      assert forall k :: 1 <= k < RunLength(s) ==> s[k] == s[1..][k - 1];
    }
  }

  lemma ForeignFirst()
    ensures Headers(Runs(".a"), true) == ["a"]
  {
    RunsHead(".a", []);
    assert ".a" + [] == ".a" && ".a"[..1] == "." && "."[..0] == "";
    assert Kept(".", true) == [];
    assert Kept(".a", true) == "a";
  }

  /** A foreign byte before a letter defeats the round trip: ".a" parses to "a", which parses to "A". */
  lemma ForeignByte()
    ensures Headers(Runs(".a"), true) == ["a"]
    ensures Headers(Runs(Join(Headers(Runs(".a"), true))), true) == ["A"]
  {
    ForeignFirst();
    Rejoined(["a"]);
    assert Canonical("a") == "A";
    assert CanonicalAll(["a"]) == ["A"];
  }
}
