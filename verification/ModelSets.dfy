/**
 Model-set synchronisation (pkg/apihelper/reflect.go): a paged listing is collected, loaded into a fresh set
 with a version check, and merged in place into the set kept so far.
 */
module ModelSets {
  import opened Wrappers
  import opened Arithmetic

  type Id = string

  /** Instants in nanoseconds; the pseudo zero is one after the zero time. */
  const PSEUDO_ZERO_TIME := 1

  /** pendingDeleted is None for a type that is not pending-deletable; `payload` stands for the other columns. */
  datatype Model = Model(id: Id, version: int, updatedAt: int, deleted: bool, pendingDeleted: Option<bool>,
      payload: int)
  {
    predicate Gone() { deleted || pendingDeleted == Some(true) }
  }

  class ModelSet {
    var models: map<Id, Model>

    constructor ()
      ensures models == map[]
    {
      models := map[];
    }
  }

  // -------------------------------------------------------------------- merge

  /** The merge, key by key: what is gone in b or missing from b goes, and a newer b replaces a. */
  function Merge(a: map<Id, Model>, b: map<Id, Model>): map<Id, Model>
  {
    map k | k in b && !b[k].Gone() :: if k in a && a[k].version >= b[k].version then a[k] else b[k]
  }

  /** t is the latest update of the set, or the pseudo zero when that is later than all. */
  ghost predicate IsLatest(t: int, models: map<Id, Model>)
  {
    && PSEUDO_ZERO_TIME <= t && (forall k :: k in models ==> models[k].updatedAt <= t)
    && (t == PSEUDO_ZERO_TIME || exists k :: k in models && models[k].updatedAt == t)
  }

  function Later(a: int, b: int): int
  {
    if b > a then b else a
  }

  ghost predicate LatestOfBoth(t: int, a: map<Id, Model>, b: map<Id, Model>)
  {
    exists ta, tb :: IsLatest(ta, a) && IsLatest(tb, b) && t == Later(ta, tb)
  }

  lemma LatestUnique(t: int, t': int, models: map<Id, Model>)
    requires IsLatest(t, models) && IsLatest(t', models)
    ensures t == t'
  {
  }

  method ModelSetMaxUpdatedAt(set': ModelSet) returns (t: int)
    ensures IsLatest(t, set'.models)
    ensures t >= 1 && (set'.models == map[] ==> t == 1)
  {
    t := PSEUDO_ZERO_TIME;
    var todo := set'.models.Keys;
    while todo != {}
      invariant todo <= set'.models.Keys && PSEUDO_ZERO_TIME <= t
      invariant forall k :: k in set'.models && k !in todo ==> set'.models[k].updatedAt <= t
      invariant t == PSEUDO_ZERO_TIME || exists k :: k in set'.models && set'.models[k].updatedAt == t
      decreases |todo|
    {
      var k :| k in todo;
      if t < set'.models[k].updatedAt {
        t := set'.models[k].updatedAt;
      }
      todo := todo - {k};
    }
  }

  ghost predicate SameAt(a: map<Id, Model>, a': map<Id, Model>, k: Id)
  {
    (k in a' <==> k in a) && (k in a' ==> a'[k] == a[k])
  }

  /** What the first pass makes of one key that b has with model bM. */
  ghost predicate Settled(a0: map<Id, Model>, bM: Model, a: map<Id, Model>, k: Id)
  {
    if bM.Gone() then k !in a
    else k in a && a[k] == if k in a0 && a0[k].version >= bM.version then a0[k] else bM
  }

  ghost predicate Visited(a0: map<Id, Model>, b0: map<Id, Model>, a: map<Id, Model>, k: Id)
    requires k in b0
  {
    Settled(a0, b0[k], a, k)
  }

  /** One key of b in the first pass; no other key is touched. */
  method ApplyKey(aSet: ModelSet, k: Id, bM: Model) returns (touched: bool)
    modifies aSet
    ensures forall x :: x != k ==> SameAt(old(aSet.models), aSet.models, x)
    ensures Settled(old(aSet.models), bM, aSet.models, k)
    ensures touched <==> !SameAt(old(aSet.models), aSet.models, k)
  {
    var bGone := bM.deleted;
    if !bGone {
      if bM.pendingDeleted.Some? {
        bGone := bM.pendingDeleted.value;
      }
    }
    if k in aSet.models {
      if bGone {
        aSet.models := aSet.models - {k};
        return true;
      }
      if aSet.models[k].version < bM.version {
        aSet.models := aSet.models[k := bM];
        return true;
      }
      return false;
    }
    if bGone {
      return false;
    }
    aSet.models := aSet.models[k := bM];
    return true;
  }

  /** First pass of ModelSetApplyUpdates, over the keys of b in any order; the two sets may be one. */
  method ApplyKeys(aSet: ModelSet, bSet: ModelSet) returns (changed: bool)
    modifies aSet
    ensures bSet != aSet ==> bSet.models == old(bSet.models)
    ensures forall k :: k in old(bSet.models) ==> Visited(old(aSet.models), old(bSet.models), aSet.models, k)
    ensures forall k :: k !in old(bSet.models) ==> SameAt(old(aSet.models), aSet.models, k)
    ensures changed <==> aSet.models != old(aSet.models)
  {
    ghost var a0, b0 := aSet.models, bSet.models;
    changed := false;
    var todo := bSet.models.Keys;
    while todo != {}
      invariant todo <= b0.Keys
      invariant bSet != aSet ==> bSet.models == b0
      invariant bSet == aSet ==> a0 == b0
      invariant forall k :: k in b0 && k !in todo ==> Visited(a0, b0, aSet.models, k)
      invariant forall k :: k !in b0 || k in todo ==> SameAt(a0, aSet.models, k)
      invariant changed <==> exists k :: !SameAt(a0, aSet.models, k)
      decreases |todo|
    {
      var k :| k in todo;
      assert SameAt(a0, aSet.models, k);
      ghost var before := aSet.models;
      var touched := ApplyKey(aSet, k, bSet.models[k]);
      forall x
        ensures SameAt(a0, aSet.models, x) <==> if x == k then !touched else SameAt(a0, before, x)
      {
        assert x != k ==> SameAt(before, aSet.models, x);
      }
      if touched {
        changed := true;
      }
      todo := todo - {k};
      forall x | x in b0 && x !in todo
        ensures Visited(a0, b0, aSet.models, x)
      {
        assert x != k ==> SameAt(before, aSet.models, x) && Visited(a0, b0, before, x);
      }
    }
    DiffersIff(a0, aSet.models);
  }

  lemma DiffersIff(a: map<Id, Model>, a': map<Id, Model>)
    ensures a != a' <==> exists k :: !SameAt(a, a', k)
  {
    if forall k :: SameAt(a, a', k) {
      forall k
        ensures (k in a <==> k in a') && (k in a ==> a[k] == a'[k])
      {
        assert SameAt(a, a', k);
      }
    }
  }

  /** Second pass: keys of a that b does not have. */
  method DropMissing(aSet: ModelSet, bSet: ModelSet) returns (changed: bool)
    modifies aSet
    ensures bSet != aSet ==> bSet.models == old(bSet.models)
    ensures aSet.models == map k | k in old(aSet.models) && k in old(bSet.models) :: old(aSet.models)[k]
    ensures changed <==> aSet.models != old(aSet.models)
  {
    ghost var a0, b0 := aSet.models, bSet.models;
    changed := false;
    var todo := aSet.models.Keys;
    while todo != {}
      invariant todo <= aSet.models.Keys <= a0.Keys
      invariant bSet != aSet ==> bSet.models == b0
      invariant bSet == aSet ==> aSet.models == a0
      invariant forall k :: k in aSet.models ==> aSet.models[k] == a0[k] && (k in todo || k in b0)
      invariant forall k :: k in a0 && k in b0 ==> k in aSet.models
      invariant changed <==> aSet.models != a0
      decreases |todo|
    {
      var k :| k in todo;
      if k !in bSet.models {
        aSet.models := aSet.models - {k};
        changed := true;
      }
      todo := todo - {k};
    }
  }

  datatype UpdateResult = UpdateResult(changed: bool, maxUpdatedAt: int)

  /**
   ModelSetApplyUpdates. Whatever the visiting order, the result is the merge; Changed says exactly whether the
   set differs from before; MaxUpdatedAt is the latest over both inputs.
   */
  method ModelSetApplyUpdates(aSet: ModelSet, bSet: ModelSet) returns (r: UpdateResult)
    modifies aSet
    ensures aSet.models == Merge(old(aSet.models), old(bSet.models))
    ensures bSet != aSet ==> bSet.models == old(bSet.models)
    ensures r.changed <==> aSet.models != old(aSet.models)
    ensures LatestOfBoth(r.maxUpdatedAt, old(aSet.models), old(bSet.models))
  {
    ghost var a0, b0 := aSet.models, bSet.models;
    var a := ModelSetMaxUpdatedAt(aSet);
    var b := ModelSetMaxUpdatedAt(bSet);
    var maxUpdatedAt := Later(a, b);
    var changed1 := ApplyKeys(aSet, bSet);
    ghost var a1 := aSet.models;
    var changed2 := DropMissing(aSet, bSet);
    PassesMerge(a0, b0, a1, aSet.models, aSet == bSet);
    r := UpdateResult(changed1 || changed2, maxUpdatedAt);
  }

  /** The two passes together; a change made by one is never undone by the other. */
  lemma PassesMerge(a0: map<Id, Model>, b0: map<Id, Model>, a1: map<Id, Model>, a2: map<Id, Model>, same: bool)
    requires same ==> a0 == b0
    requires forall k :: k in b0 ==> Visited(a0, b0, a1, k)
    requires forall k :: k !in b0 ==> SameAt(a0, a1, k)
    requires a2 == map k | k in a1 && (if same then k in a1 else k in b0) :: a1[k]
    ensures a2 == Merge(a0, b0)
    ensures a2 != a0 <==> a1 != a0 || a2 != a1
  {
    forall k
      ensures SameAt(Merge(a0, b0), a2, k)
    {
      if k in b0 {
        assert Visited(a0, b0, a1, k);
      } else {
        assert SameAt(a0, a1, k);
      }
    }
    DiffersIff(Merge(a0, b0), a2);
    if a2 == a0 {
      assert forall k :: k !in b0 ==> SameAt(a0, a1, k);
      assert forall k :: k in a1 <==> k in a0;
    }
  }

  /**
   The merge is the one map whose keys are b's keys that are not gone, and whose values come from a or b, at a version
   no lower than either has, a's own where the versions are equal.
   */
  lemma MergeUnique(a: map<Id, Model>, b: map<Id, Model>, m: map<Id, Model>)
    ensures m == Merge(a, b) <==>
            && (forall k :: k in m <==> k in b && !b[k].deleted && b[k].pendingDeleted != Some(true))
            && (forall k :: k in m ==> m[k] == b[k] || (k in a && m[k] == a[k]))
            && (forall k :: k in m ==> m[k].version >= b[k].version && (k in a ==> m[k].version >= a[k].version))
            && (forall k :: k in m && k in a && a[k].version == b[k].version ==> m[k] == a[k])
  {
    if (forall k :: k in m <==> k in b && !b[k].deleted && b[k].pendingDeleted != Some(true))
       && (forall k :: k in m ==> m[k] == b[k] || (k in a && m[k] == a[k]))
       && (forall k :: k in m ==> m[k].version >= b[k].version && (k in a ==> m[k].version >= a[k].version))
       && (forall k :: k in m && k in a && a[k].version == b[k].version ==> m[k] == a[k]) {
      assert m.Keys == Merge(a, b).Keys;
    }
  }

  /** Applying the same set again changes nothing. */
  lemma MergeIdempotent(a: map<Id, Model>, b: map<Id, Model>)
    ensures Merge(Merge(a, b), b) == Merge(a, b)
  {
  }

  // --------------------------------------------------------------------- load

  /** An entry of the listing, or one that does not unmarshal. */
  datatype Entry = Good(model: Model) | Bad

  /** Each id with its last entry among the first n, all of them good. */
  function LastById(entries: seq<Entry>, n: nat): map<Id, Model>
    requires n <= |entries|
  {
    if n == 0 then map[]
    else if entries[n - 1].Bad? then LastById(entries, n - 1)
    else LastById(entries, n - 1)[entries[n - 1].model.id := entries[n - 1].model]
  }

  /** No bad entry, and no later entry of an id with a lower version, among the first n. */
  ghost predicate Clean(entries: seq<Entry>, n: nat)
    requires n <= |entries|
  {
    && (forall i :: 0 <= i < n ==> entries[i].Good?)
    && (forall i, j :: 0 <= i < j < n && entries[i].model.id == entries[j].model.id ==>
        entries[i].model.version <= entries[j].model.version)
  }

  /** The loop stops before entry i. */
  predicate StopsAt(entries: seq<Entry>, i: nat)
    requires i < |entries|
  {
    entries[i].Bad?
    || (var loaded, m := LastById(entries, i), entries[i].model; m.id in loaded && loaded[m.id].version > m.version)
  }

  function StopFrom(entries: seq<Entry>, i: nat): (n: nat)
    requires i <= |entries|
    ensures i <= n <= |entries|
    decreases |entries| - i
  {
    if i == |entries| || StopsAt(entries, i) then i else StopFrom(entries, i + 1)
  }

  /** An id is loaded exactly when some entry has it, with the value of the last such entry. */
  lemma {:induction false} LastByIdMeaning(entries: seq<Entry>, n: nat, id: Id)
    requires n <= |entries|
    ensures id in LastById(entries, n) <==> exists i :: 0 <= i < n && entries[i].Good? && entries[i].model.id == id
    ensures id in LastById(entries, n) ==>
              exists i :: 0 <= i < n && entries[i] == Good(LastById(entries, n)[id]) && entries[i].model.id == id
                && forall j :: i < j < n && entries[j].Good? ==> entries[j].model.id != id
  {
    if n > 0 {
      LastByIdMeaning(entries, n - 1, id);
      if id in LastById(entries, n) && !(entries[n - 1].Good? && entries[n - 1].model.id == id) {
        var i :| 0 <= i < n - 1 && entries[i] == Good(LastById(entries, n - 1)[id]) && entries[i].model.id == id
               && forall j :: i < j < n - 1 && entries[j].Good? ==> entries[j].model.id != id;
        assert forall j :: i < j < n && entries[j].Good? ==> entries[j].model.id != id;
      } else if id in LastById(entries, n) {
        assert entries[n - 1] == Good(LastById(entries, n)[id]);
      }
    }
  }

  /** After a clean prefix, the comparison with the loaded entry decides exactly whether the prefix stays clean. */
  lemma StopsAtExact(entries: seq<Entry>, i: nat)
    requires i < |entries| && Clean(entries, i)
    ensures StopsAt(entries, i) <==> !Clean(entries, i + 1)
  {
    if entries[i].Good? {
      var m := entries[i].model;
      LastByIdMeaning(entries, i, m.id);
      if m.id in LastById(entries, i) {
        var l :| 0 <= l < i && entries[l] == Good(LastById(entries, i)[m.id]) && entries[l].model.id == m.id
               && forall j :: l < j < i && entries[j].Good? ==> entries[j].model.id != m.id;
        assert forall j :: 0 <= j < i && entries[j].model.id == m.id ==> j <= l;
        assert forall j :: 0 <= j < i && entries[j].model.id == m.id ==>
            entries[j].model.version <= entries[l].model.version;
      }
    }
  }

  /** The load stops at the first bad entry or version regression, and nowhere else. */
  lemma {:induction false} StopExact(entries: seq<Entry>, i: nat)
    requires i <= |entries| && Clean(entries, i)
    ensures var n := StopFrom(entries, i); Clean(entries, n) && (n < |entries| ==> !Clean(entries, n + 1))
    decreases |entries| - i
  {
    if i < |entries| {
      StopsAtExact(entries, i);
      if !StopsAt(entries, i) {
        StopExact(entries, i + 1);
      }
    }
  }

  /** One entry of the load: it stops there, or takes the entry in. */
  lemma StopsOrGoesOn(entries: seq<Entry>, i: nat)
    requires i < |entries|
    ensures StopsAt(entries, i) ==> StopFrom(entries, i) == i
    ensures !StopsAt(entries, i) ==> entries[i].Good? && StopFrom(entries, i) == StopFrom(entries, i + 1)
    ensures entries[i].Good? ==>
              LastById(entries, i + 1) == LastById(entries, i)[entries[i].model.id := entries[i].model]
  {
  }

  /** Empties a set key by key. */
  method Clear(set': ModelSet)
    modifies set'
    ensures set'.models == map[]
  {
    var todo := set'.models.Keys;
    while todo != {}
      invariant set'.models.Keys == todo
      decreases |todo|
    {
      var k :| k in todo;
      set'.models := set'.models - {k};
      todo := todo - {k};
    }
  }

  /** InitializeModelSetFromJSON: old content goes, and a version regression ends the load without an error. */
  method InitializeModelSetFromJSON(set': ModelSet, entries: seq<Entry>) returns (failed: bool)
    modifies set'
    ensures set'.models == LastById(entries, StopFrom(entries, 0))
    ensures failed <==> StopFrom(entries, 0) < |entries| && entries[StopFrom(entries, 0)].Bad?
  {
    Clear(set');
    ghost var stop := StopFrom(entries, 0);
    var i := 0;
    while i < |entries|
      invariant 0 <= i <= |entries| && set'.models == LastById(entries, i) && StopFrom(entries, i) == stop
    {
      StopsOrGoesOn(entries, i);
      if entries[i].Bad? {
        return true;
      }
      var m := entries[i].model;
      if m.id in set'.models && set'.models[m.id].version > m.version {
        return false;
      }
      set'.models := set'.models[m.id := m];
      i := i + 1;
    }
    return false;
  }

  /** A clean listing is loaded whole. */
  lemma CleanLoad(entries: seq<Entry>)
    requires Clean(entries, |entries|)
    ensures StopFrom(entries, 0) == |entries|
  {
    StopExact(entries, 0);
  }

  // ------------------------------------------------------------------- paging

  /** One page of a stable listing. */
  datatype Page = Page(data: seq<Entry>, offset: nat, total: nat)

  function ListPage(listing: seq<Entry>, offset: nat, limit: nat): Page
    requires offset <= |listing|
  {
    var end := if offset + limit <= |listing| then offset + limit else |listing|;
    Page(listing[offset..end], offset, |listing|)
  }

  /** Requests that a listing of the given length takes, the first one always. */
  function PageCount(length: nat, limit: nat): nat
    requires limit > 0
  {
    if length == 0 then 1 else (length - 1) / limit + 1
  }

  lemma PageCountIs(length: nat, limit: nat, k: nat)
    requires limit > 0 && k > 0 && (k - 1) * limit < length <= k * limit
    ensures PageCount(length, limit) == k
  {
    DivUnique(length - 1, k - 1, limit);
  }

  /**
   The loop of GetModels against a stable listing with a positive page size; `broken(k)` says whether the k-th
   request fails. It ends with the whole listing, once and in order, exactly when no request that it takes fails.
   */
  method CollectPages(listing: seq<Entry>, limit: nat, broken: nat -> bool) returns (ok: bool, entries: seq<Entry>)
    requires limit > 0
    ensures ok <==> forall k :: 0 <= k < PageCount(|listing|, limit) ==> !broken(k)
    ensures ok ==> entries == listing
  {
    entries := [];
    var offset := 0;
    var requests := 0;
    while true
      invariant offset <= |listing| && entries == listing[..offset]
      invariant offset == requests * limit && (requests > 0 ==> offset < |listing|)
      invariant forall k :: 0 <= k < requests ==> !broken(k)
      decreases |listing| - offset
    {
      PageReached(|listing|, limit, requests);
      assert requests * limit + limit == (requests + 1) * limit;
      var failed := broken(requests);
      requests := requests + 1;
      if failed {
        return false, entries;
      }
      var page := ListPage(listing, offset, limit);
      entries := entries + page.data;
      if page.offset + |page.data| >= page.total {
        if listing != [] {
          PageCountIs(|listing|, limit, requests);
        }
        return true, entries;
      }
      offset := page.offset + |page.data|;
    }
  }

  /** A request that begins inside the listing is one of those counted. */
  lemma PageReached(length: nat, limit: nat, k: nat)
    requires limit > 0 && (k == 0 || k * limit < length)
    ensures k < PageCount(length, limit)
  {
    if k > 0 {
      DivUnique(k * limit, k, limit);
      DivMono(k * limit, length - 1, limit);
    }
  }

  // --------------------------------------------------------------------- sync

  /** A request fails, or the load meets an entry that does not unmarshal. */
  ghost predicate GetFails(listing: seq<Entry>, limit: nat, broken: nat -> bool)
    requires limit > 0
  {
    || (exists k :: 0 <= k < PageCount(|listing|, limit) && broken(k))
    || (StopFrom(listing, 0) < |listing| && listing[StopFrom(listing, 0)].Bad?)
  }

  /** What GetModels leaves in the set that it fills. */
  function Fetched(listing: seq<Entry>): map<Id, Model>
  {
    LastById(listing, StopFrom(listing, 0))
  }

  method GetModels(set': ModelSet, listing: seq<Entry>, limit: nat, broken: nat -> bool) returns (ok: bool)
    requires limit > 0
    modifies set'
    ensures ok <==> !GetFails(listing, limit, broken)
    ensures ok ==> set'.models == Fetched(listing)
  {
    var entries;
    ok, entries := CollectPages(listing, limit, broken);
    if ok {
      var failed := InitializeModelSetFromJSON(set', entries);
      ok := !failed;
    }
  }

  /** One remote listing: its entries, and which of its requests fail. */
  datatype Remote = Remote(listing: seq<Entry>, broken: nat -> bool)

  /** syncModelSets: every new set is filled before any old one is touched; the first error ends it. */
  method FetchAll(remotes: seq<Remote>, limit: nat) returns (ok: bool, news: seq<ModelSet>)
    requires limit > 0
    ensures ok <==> forall i :: 0 <= i < |remotes| ==> !GetFails(remotes[i].listing, limit, remotes[i].broken)
    ensures ok ==> |news| == |remotes|
    ensures ok ==> forall i :: 0 <= i < |news| ==> fresh(news[i]) && news[i].models == Fetched(remotes[i].listing)
  {
    news := [];
    for i := 0 to |remotes|
      invariant |news| == i
      invariant forall j :: 0 <= j < i ==> !GetFails(remotes[j].listing, limit, remotes[j].broken)
      invariant forall j :: 0 <= j < i ==> fresh(news[j]) && news[j].models == Fetched(remotes[j].listing)
    {
      var msNew := new ModelSet();
      ok := GetModels(msNew, remotes[i].listing, limit, remotes[i].broken);
      if !ok {
        return;
      }
      news := news + [msNew];
    }
    ok := true;
  }

  /** ApplyUpdates: set by set, Changed if any set changed. */
  method ApplyAll(mss: seq<ModelSet>, news: seq<ModelSet>) returns (changed: bool)
    requires |mss| == |news| && (forall i, j :: 0 <= i < j < |mss| ==> mss[i] != mss[j])
    requires forall i, j :: 0 <= i < |mss| && 0 <= j < |news| ==> mss[i] != news[j]
    modifies mss
    ensures forall i :: 0 <= i < |mss| ==> mss[i].models == Merge(old(mss[i].models), old(news[i].models))
    ensures changed <==> exists i :: 0 <= i < |mss| && mss[i].models != old(mss[i].models)
  {
    changed := false;
    for i := 0 to |mss|
      invariant forall j :: 0 <= j < i ==> mss[j].models == Merge(old(mss[j].models), old(news[j].models))
      invariant forall j :: i <= j < |mss| ==> mss[j].models == old(mss[j].models)
      invariant forall j :: 0 <= j < |news| ==> news[j].models == old(news[j].models)
      invariant changed <==> exists j :: 0 <= j < i && mss[j].models != old(mss[j].models)
    {
      var msR := ModelSetApplyUpdates(mss[i], news[i]);
      if !changed && msR.changed {
        changed := true;
      }
    }
  }

  /**
   SyncModelSets over all sets of an agent: unless some load fails, every set is merged with what was fetched for it;
   if one fails, no set is touched.
   */
  method SyncModelSets(mss: seq<ModelSet>, remotes: seq<Remote>, limit: nat) returns (ok: bool, changed: bool)
    requires limit > 0 && |mss| == |remotes| && (forall i, j :: 0 <= i < j < |mss| ==> mss[i] != mss[j])
    modifies mss
    ensures ok <==> forall i :: 0 <= i < |remotes| ==> !GetFails(remotes[i].listing, limit, remotes[i].broken)
    ensures forall i :: 0 <= i < |mss| ==>
              mss[i].models == if ok then Merge(old(mss[i].models), Fetched(remotes[i].listing)) else old(mss[i].models)
    ensures changed <==> exists i :: 0 <= i < |mss| && mss[i].models != old(mss[i].models)
  {
    changed := false;
    var news;
    ok, news := FetchAll(remotes, limit);
    if ok {
      changed := ApplyAll(mss, news);
    }
  }

  /** The last good entry of an id among the first n exists and is neither deleted nor pending deletion. */
  ghost predicate LastAlive(listing: seq<Entry>, n: nat, id: Id)
    requires n <= |listing|
  {
    exists i :: 0 <= i < n && listing[i].Good? && listing[i].model.id == id
      && !listing[i].model.deleted && listing[i].model.pendingDeleted != Some(true)
      && forall j :: i < j < n && listing[j].Good? ==> listing[j].model.id != id
  }

  /** After a sync from any listing, an id is kept exactly when its last entry before the stop is not gone. */
  lemma SyncKeys(a: map<Id, Model>, listing: seq<Entry>, id: Id)
    ensures id in Merge(a, Fetched(listing)) <==> LastAlive(listing, StopFrom(listing, 0), id)
  {
    var n := StopFrom(listing, 0);
    LastByIdMeaning(listing, n, id);
    if id in Fetched(listing) {
      var i :| 0 <= i < n && listing[i] == Good(Fetched(listing)[id]) && listing[i].model.id == id
             && forall j :: i < j < n && listing[j].Good? ==> listing[j].model.id != id;
      assert LastAlive(listing, n, id) ==> !listing[i].model.Gone();
    }
  }

  /** So a clean listing is followed to its end. */
  lemma CleanSync(a: map<Id, Model>, listing: seq<Entry>, id: Id)
    requires Clean(listing, |listing|)
    ensures id in Merge(a, Fetched(listing)) <==> LastAlive(listing, |listing|, id)
  {
    CleanLoad(listing);
    SyncKeys(a, listing, id);
  }

  /** A version regression at entry n: every id listed only from n on is dropped, although no error is reported. */
  lemma RegressionDropsTail(a: map<Id, Model>, listing: seq<Entry>, n: nat, id: Id, limit: nat)
    requires limit > 0 && n == StopFrom(listing, 0) < |listing| && listing[n].Good?
    requires forall i :: 0 <= i < n && listing[i].Good? ==> listing[i].model.id != id
    ensures Clean(listing, n) && !Clean(listing, n + 1) && !GetFails(listing, limit, k => false)
    ensures id !in Merge(a, Fetched(listing))
  {
    StopExact(listing, 0);
    SyncKeys(a, listing, id);
  }

  /** Such a listing: x at version 2, x again at version 1, then y. The sync deletes y, listed and alive. */
  lemma RegressionHappens(x: Model, x': Model, y: Model, a: map<Id, Model>)
    requires x.id == x'.id != y.id && x.version > x'.version && !y.Gone() && y.id in a
    ensures var listing := [Good(x), Good(x'), Good(y)];
            && StopFrom(listing, 0) == 1 && LastAlive(listing, 3, y.id) && !GetFails(listing, 1, k => false)
            && y.id !in Merge(a, Fetched(listing))
  {
    var listing := [Good(x), Good(x'), Good(y)];
    assert LastById(listing, 1) == LastById(listing, 0)[x.id := x];
    assert !StopsAt(listing, 0) && StopsAt(listing, 1) && StopFrom(listing, 1) == 1;
    assert listing[2].model.id == y.id;
    RegressionDropsTail(a, listing, 1, y.id, 1);
  }
}
