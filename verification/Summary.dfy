/** The leak summary (src/hulog.cpp): grouping by callstack, sorting by size, the cutoff. */
module Summary {
  import opened Machine
  import opened Layout
  import opened LogModel
  import opened LogTheorems

  /** All blocks with one callstack: their bytes and how many they are. */
  datatype Group = Group(callstack: Stack, size: nat, count: nat)

  /** The tracked blocks allocated at exactly this callstack. */
  function With(m: map<Addr, Entry>, cs: Stack): map<Addr, Entry> {
    map p | p in m && m[p].callstack == cs :: m[p]
  }

  /** order lists the keys of m, each once: some iteration order of an unordered_map. */
  ghost predicate Enumerates<K(!new), V>(order: seq<K>, m: map<K, V>) {
    && (forall k :: k in m <==> k in order)
    && forall i, j :: 0 <= i < j < |order| ==> order[i] != order[j]
  }

  /** groups is the partition of m by callstack. */
  ghost predicate Grouped(groups: map<Stack, Group>, m: map<Addr, Entry>) {
    forall cs :: GroupMatches(groups, m, cs)
  }

  /** One more block: into its group, or as a group of its own. */
  function AddToGroup(groups: map<Stack, Group>, e: Entry): map<Stack, Group> {
    var cs := e.callstack;
    groups[cs := if cs in groups then Group(cs, Add64(groups[cs].size, e.size), groups[cs].count + 1)
                 else Group(cs, e.size, 1)]
  }

  lemma WithAdd(m: map<Addr, Entry>, p: Addr, e: Entry, cs: Stack)
    requires p !in m
    ensures With(m[p := e], cs) == if e.callstack == cs then With(m, cs)[p := e] else With(m, cs)
  {
  }

  /** The group made of exactly these blocks. */
  ghost function Describe(own: map<Addr, Entry>, cs: Stack): Group {
    Group(cs, SizeSum(own) % WORD, |own|)
  }

  lemma DescribeAdd(own: map<Addr, Entry>, p: Addr, e: Entry)
    requires p !in own && e.size < WORD
    ensures var g := Describe(own, e.callstack);
            Describe(own[p := e], e.callstack) == Group(e.callstack, Add64(g.size, e.size), g.count + 1)
  {
    SizeSumAdd(own, p, e);
    hide SizeSum;
    ModAdd(SizeSum(own), e.size);
  }

  lemma DescribeOne(p: Addr, e: Entry)
    requires e.size < WORD
    ensures Describe(map[p := e], e.callstack) == Group(e.callstack, e.size, 1)
  {
    var m := map[p := e];
    SizeSumRemove(m, p);
    assert m - {p} == map[];
    assert SizeSum(map[]) == 0;
    hide SizeSum;
  }

  /** The entry of groups for cs, if any, describes With(m, cs). */
  ghost predicate GroupMatches(groups: map<Stack, Group>, m: map<Addr, Entry>, cs: Stack) {
    && (cs in groups <==> With(m, cs) != map[])
    && (cs in groups ==> groups[cs] == Describe(With(m, cs), cs))
  }

  lemma OwnGroupMatches(groups: map<Stack, Group>, m: map<Addr, Entry>, p: Addr, e: Entry)
    requires GroupMatches(groups, m, e.callstack) && p !in m && e.size < WORD
    ensures GroupMatches(AddToGroup(groups, e), m[p := e], e.callstack)
  {
    var own := With(m, e.callstack);
    WithAdd(m, p, e, e.callstack);
    assert p in own[p := e] && p !in own;
    assert own == map[] ==> own[p := e] == map[p := e];
    hide Describe, With;
    DescribeAdd(own, p, e);
    DescribeOne(p, e);
  }

  lemma OtherGroupMatches(groups: map<Stack, Group>, m: map<Addr, Entry>, p: Addr, e: Entry, cs: Stack)
    requires GroupMatches(groups, m, cs) && p !in m && cs != e.callstack
    ensures GroupMatches(AddToGroup(groups, e), m[p := e], cs)
  {
    WithAdd(m, p, e, cs);
  }

  lemma AddKeepsGrouped(groups: map<Stack, Group>, m: map<Addr, Entry>, p: Addr, e: Entry)
    requires Grouped(groups, m) && p !in m && e.size < WORD
    ensures Grouped(AddToGroup(groups, e), m[p := e])
  {
    hide SizeSum, With, AddToGroup;
    var groups', m' := AddToGroup(groups, e), m[p := e];
    forall cs
      ensures GroupMatches(groups', m', cs)
    {
      assert GroupMatches(groups, m, cs);
      if cs == e.callstack {
        OwnGroupMatches(groups, m, p, e);
      } else {
        OtherGroupMatches(groups, m, p, e, cs);
      }
    }
  }

  // ---- sums over groups ----

  ghost function GroupBytes(groups: map<Stack, Group>): nat
    decreases |groups|
  {
    if groups == map[] then 0
    else
      var cs :| cs in groups;
      groups[cs].size + GroupBytes(groups - {cs})
  }

  ghost function GroupBlocks(groups: map<Stack, Group>): nat
    decreases |groups|
  {
    if groups == map[] then 0
    else
      var cs :| cs in groups;
      groups[cs].count + GroupBlocks(groups - {cs})
  }

  lemma {:induction false} GroupBytesRemove(groups: map<Stack, Group>, cs: Stack)
    requires cs in groups
    ensures GroupBytes(groups) == groups[cs].size + GroupBytes(groups - {cs})
    decreases |groups|
  {
    var q :| q in groups && GroupBytes(groups) == groups[q].size + GroupBytes(groups - {q});
    if q != cs {
      GroupBytesRemove(groups - {q}, cs);
      GroupBytesRemove(groups - {cs}, q);
      assert groups - {q} - {cs} == groups - {cs} - {q};
    }
  }

  lemma {:induction false} GroupBlocksRemove(groups: map<Stack, Group>, cs: Stack)
    requires cs in groups
    ensures GroupBlocks(groups) == groups[cs].count + GroupBlocks(groups - {cs})
    decreases |groups|
  {
    var q :| q in groups && GroupBlocks(groups) == groups[q].count + GroupBlocks(groups - {q});
    if q != cs {
      GroupBlocksRemove(groups - {q}, cs);
      GroupBlocksRemove(groups - {cs}, q);
      assert groups - {q} - {cs} == groups - {cs} - {q};
    }
  }

  /** Groups add up to the totals: bytes modulo 2^64, blocks exactly. */
  ghost predicate AddsUp(groups: map<Stack, Group>, bytes: nat, blocks: nat) {
    GroupBytes(groups) % WORD == bytes && GroupBlocks(groups) == blocks
  }

  lemma AddToGroupBytes(groups: map<Stack, Group>, e: Entry)
    requires e.size < WORD
    ensures GroupBytes(AddToGroup(groups, e)) % WORD == (GroupBytes(groups) + e.size) % WORD
    ensures GroupBytes(AddToGroup(groups, e)) <= GroupBytes(groups) + e.size
  {
    var cs := e.callstack;
    var groups' := AddToGroup(groups, e);
    var rest := groups - {cs};
    assert groups' - {cs} == rest;
    GroupBytesRemove(groups', cs);
    if cs in groups {
      GroupBytesRemove(groups, cs);
      hide GroupBytes;
      ModAdd(groups[cs].size + e.size, GroupBytes(rest));
    } else {
      assert rest == groups;
    }
  }

  lemma AddToGroupBlocks(groups: map<Stack, Group>, e: Entry)
    ensures GroupBlocks(AddToGroup(groups, e)) == GroupBlocks(groups) + 1
  {
    var cs := e.callstack;
    var groups' := AddToGroup(groups, e);
    assert groups' - {cs} == groups - {cs};
    GroupBlocksRemove(groups', cs);
    if cs in groups {
      GroupBlocksRemove(groups, cs);
    } else {
      assert groups - {cs} == groups;
    }
  }

  lemma AddKeepsSums(groups: map<Stack, Group>, e: Entry, bytes: nat, blocks: nat)
    requires AddsUp(groups, bytes, blocks) && e.size < WORD
    ensures AddsUp(AddToGroup(groups, e), Add64(bytes, e.size), blocks + 1)
  {
    AddToGroupBytes(groups, e);
    AddToGroupBlocks(groups, e);
    hide GroupBytes, GroupBlocks, AddToGroup;
    ModAdd(GroupBytes(groups), e.size);
  }

  ghost predicate Collected(seen: map<Addr, Entry>, groups: map<Stack, Group>, leakBytes: nat, leakBlocks: nat) {
    && Grouped(groups, seen)
    && leakBytes == SizeSum(seen) % WORD && leakBlocks == |seen|
    && AddsUp(groups, leakBytes, leakBlocks)
    && GroupBytes(groups) <= SizeSum(seen)
  }

  lemma CollectOne(seen: map<Addr, Entry>, groups: map<Stack, Group>, leakBytes: nat, leakBlocks: nat,
                   p: Addr, e: Entry)
    requires Collected(seen, groups, leakBytes, leakBlocks) && p !in seen && e.size < WORD
    ensures Collected(seen[p := e], AddToGroup(groups, e), Add64(leakBytes, e.size), leakBlocks + 1)
  {
    hide Grouped, AddsUp, SizeSum, AddToGroup, GroupBytes;
    AddToGroupBytes(groups, e);
    AddKeepsGrouped(groups, seen, p, e);
    AddKeepsSums(groups, e, leakBytes, leakBlocks);
    SizeSumAdd(seen, p, e);
    ModAdd(SizeSum(seen), e.size);
  }

  lemma NothingCollected()
    ensures Collected(map[], map[], 0, 0)
  {
    forall cs
      ensures GroupMatches(map[], map[], cs)
    {
      assert With(map[], cs) == map[];
    }
  }

  /** The first k keys of an iteration order, with their values. */
  ghost predicate Visited<K(!new), V>(seen: map<K, V>, m: map<K, V>, order: seq<K>, k: nat)
    requires k <= |order|
  {
    && (forall p :: p in seen <==> p in order[..k])
    && forall p :: p in seen ==> p in m && seen[p] == m[p]
  }

  lemma VisitNext<K(!new), V>(seen: map<K, V>, m: map<K, V>, order: seq<K>, k: nat)
    requires Enumerates(order, m) && k < |order| && Visited(seen, m, order, k)
    ensures order[k] in m && order[k] !in seen
    ensures Visited(seen[order[k] := m[order[k]]], m, order, k + 1)
  {
    assert order[k] in order;
    assert order[..k + 1] == order[..k] + [order[k]];
  }

  lemma AllVisited<K(!new), V>(seen: map<K, V>, m: map<K, V>, order: seq<K>)
    requires Enumerates(order, m) && Visited(seen, m, order, |order|)
    ensures seen == m
  {
    assert order[..|order|] == order;
  }

  /** The loop over the tracked blocks that builds the groups and the totals. */
  method GroupByCallstack(live: map<Addr, Entry>, order: seq<Addr>)
    returns (groups: map<Stack, Group>, leakBytes: nat, leakBlocks: nat)
    requires Enumerates(order, live)
    requires forall p :: p in live ==> live[p].size < WORD
    ensures Grouped(groups, live)
    ensures leakBytes == SizeSum(live) % WORD && leakBlocks == |live|
    ensures AddsUp(groups, leakBytes, leakBlocks) && GroupBytes(groups) <= SizeSum(live)
  {
    groups, leakBytes, leakBlocks := map[], 0, 0;
    ghost var seen: map<Addr, Entry> := map[];
    NothingCollected();
    var i := 0;
    while i < |order|
      invariant 0 <= i <= |order|
      invariant Visited(seen, live, order, i)
      invariant Collected(seen, groups, leakBytes, leakBlocks)
    {
      VisitNext(seen, live, order, i);
      hide *;
      var e := live[order[i]];
      CollectOne(seen, groups, leakBytes, leakBlocks, order[i], e);
      seen := seen[order[i] := e];
      groups := AddToGroup(groups, e);
      leakBytes := Add64(leakBytes, e.size);
      leakBlocks := leakBlocks + 1;
      i := i + 1;
    }
    AllVisited(seen, live, order);
  }

  // ---- sorting ----

  ghost predicate Ascending(s: seq<Group>) {
    forall i, j :: 0 <= i < j < |s| ==> s[i].size <= s[j].size
  }

  function SeqBytes(s: seq<Group>): nat {
    if s == [] then 0 else s[0].size + SeqBytes(s[1..])
  }

  function SeqBlocks(s: seq<Group>): nat {
    if s == [] then 0 else s[0].count + SeqBlocks(s[1..])
  }

  lemma {:induction false} SeqSums(a: seq<Group>, b: seq<Group>)
    ensures SeqBytes(a + b) == SeqBytes(a) + SeqBytes(b)
    ensures SeqBlocks(a + b) == SeqBlocks(a) + SeqBlocks(b)
  {
    if a == [] {
      assert a + b == b;
    } else {
      assert (a + b)[1..] == a[1..] + b;
      SeqSums(a[1..], b);
    }
  }

  /** Each group once. */
  ghost predicate Lists(s: seq<Group>, groups: map<Stack, Group>) {
    forall g: Group :: multiset(s)[g] == if g.callstack in groups && groups[g.callstack] == g then 1 else 0
  }

  lemma InsertedSums(a: seq<Group>, g: Group, b: seq<Group>)
    ensures SeqBytes(a + [g] + b) == SeqBytes(a + b) + g.size
    ensures SeqBlocks(a + [g] + b) == SeqBlocks(a + b) + g.count
  {
    assert [g][1..] == [];
    assert SeqBytes([g]) == g.size;
    assert SeqBlocks([g]) == g.count;
    hide SeqBytes, SeqBlocks;
    SeqSums(a, b);
    SeqSums(a, [g]);
    SeqSums(a + [g], b);
  }

  lemma InsertedAt(s: seq<Group>, g: Group, k: nat)
    requires k <= |s|
    ensures var r := s[..k] + [g] + s[k..];
            && multiset(r) == multiset(s) + multiset{g}
            && SeqBytes(r) == SeqBytes(s) + g.size && SeqBlocks(r) == SeqBlocks(s) + g.count
  {
    hide SeqBytes, SeqBlocks;
    assert s == s[..k] + s[k..];
    InsertedSums(s[..k], g, s[k..]);
  }

  /** multiset::insert: before the first larger group. */
  method InsertBySize(s: seq<Group>, g: Group) returns (r: seq<Group>)
    requires Ascending(s)
    ensures Ascending(r) && multiset(r) == multiset(s) + multiset{g}
    ensures SeqBytes(r) == SeqBytes(s) + g.size && SeqBlocks(r) == SeqBlocks(s) + g.count
  {
    hide SeqBytes, SeqBlocks;
    var k := |s|;
    while 0 < k && g.size < s[k - 1].size
      invariant 0 <= k <= |s|
      invariant forall j :: k <= j < |s| ==> g.size < s[j].size
    {
      k := k - 1;
    }
    r := s[..k] + [g] + s[k..];
    InsertedAt(s, g, k);
  }

  /** s lists the groups of the callstacks in seen, and its sums are theirs. */
  ghost predicate SortedSoFar(s: seq<Group>, seen: map<Stack, Group>) {
    && Ascending(s) && Lists(s, seen)
    && SeqBytes(s) == GroupBytes(seen) && SeqBlocks(s) == GroupBlocks(seen)
  }

  lemma SortOneMore(s: seq<Group>, r: seq<Group>, seen: map<Stack, Group>, cs: Stack, g: Group)
    requires SortedSoFar(s, seen) && cs !in seen && g.callstack == cs
    requires Ascending(r) && multiset(r) == multiset(s) + multiset{g}
    requires SeqBytes(r) == SeqBytes(s) + g.size && SeqBlocks(r) == SeqBlocks(s) + g.count
    ensures SortedSoFar(r, seen[cs := g])
  {
    hide SeqBytes, SeqBlocks, Ascending;
    var seen' := seen[cs := g];
    assert seen' - {cs} == seen;
    GroupBytesRemove(seen', cs);
    GroupBlocksRemove(seen', cs);
  }

  method SortBySize(groups: map<Stack, Group>, order: seq<Stack>) returns (sorted: seq<Group>)
    requires Enumerates(order, groups) && forall cs :: cs in groups ==> groups[cs].callstack == cs
    ensures Ascending(sorted) && Lists(sorted, groups)
    ensures SeqBytes(sorted) == GroupBytes(groups) && SeqBlocks(sorted) == GroupBlocks(groups)
  {
    sorted := [];
    ghost var seen: map<Stack, Group> := map[];
    var i := 0;
    while i < |order|
      invariant 0 <= i <= |order|
      invariant Visited(seen, groups, order, i)
      invariant SortedSoFar(sorted, seen)
    {
      VisitNext(seen, groups, order, i);
      var cs := order[i];
      assert Ascending(sorted);
      hide *;
      var r := InsertBySize(sorted, groups[cs]);
      SortOneMore(sorted, r, seen, cs, groups[cs]);
      sorted := r;
      seen := seen[cs := groups[cs]];
      i := i + 1;
    }
    AllVisited(seen, groups, order);
  }

  // ---- the test of a callstack ----

  const LIBOBJC := "libobjc.A.dylib"

  /** The outermost frame whose object file is known tells where the callstack originates. */
  function Origin(stack: Stack, fileOf: Addr -> string): string
    decreases |stack|
  {
    if |stack| <= 1 then ""
    else if fileOf(stack[|stack| - 1]) != "" then fileOf(stack[|stack| - 1])
    else Origin(stack[..|stack| - 1], fileOf)
  }

  /** Only deallocations from libobjc are to be ignored. */
  predicate ValidCallstack(stack: Stack, isAlloc: bool, fileOf: Addr -> string) {
    isAlloc || Origin(stack, fileOf) != LIBOBJC
  }

  lemma {:induction false} OriginIs(stack: Stack, fileOf: Addr -> string, name: string)
    requires name != ""
    ensures Origin(stack, fileOf) == name
            <==> exists i :: 0 < i < |stack| && fileOf(stack[i]) == name
                             && forall j :: i < j < |stack| ==> fileOf(stack[j]) == ""
    decreases |stack|
  {
    if |stack| > 1 {
      var n := |stack| - 1;
      if fileOf(stack[n]) == "" {
        OriginIs(stack[..n], fileOf, name);
        if i :| 0 < i < |stack| && fileOf(stack[i]) == name && forall j :: i < j < |stack| ==> fileOf(stack[j]) == "" {
          assert stack[..n][i] == stack[i];
          assert forall j :: i < j < n ==> stack[..n][j] == stack[j];
        }
        if i :| 0 < i < n && fileOf(stack[..n][i]) == name
                && forall j :: i < j < n ==> fileOf(stack[..n][j]) == "" {
          forall j | i < j < |stack|
            ensures fileOf(stack[j]) == ""
          {
            assert j < n ==> stack[j] == stack[..n][j];
          }
          assert stack[..n][i] == stack[i];
        }
      }
    }
  }

  /** A callstack is rejected exactly when it is a deallocation whose outermost known frame is in libobjc. */
  lemma ValidMeans(stack: Stack, isAlloc: bool, fileOf: Addr -> string)
    ensures !ValidCallstack(stack, isAlloc, fileOf)
            <==> !isAlloc && exists i :: 0 < i < |stack| && fileOf(stack[i]) == "libobjc.A.dylib"
                                         && forall j :: i < j < |stack| ==> fileOf(stack[j]) == ""
  {
    OriginIs(stack, fileOf, "libobjc.A.dylib");
  }

  /** log_is_valid_callstack; fileOf is what dladdr knows, or nothing. */
  method IsValidCallstack(stack: Stack, isAlloc: bool, fileOf: Addr -> string) returns (ok: bool)
    ensures ok == ValidCallstack(stack, isAlloc, fileOf)
    ensures !ok <==> !isAlloc && exists i :: 0 < i < |stack| && fileOf(stack[i]) == "libobjc.A.dylib"
                                             && forall j :: i < j < |stack| ==> fileOf(stack[j]) == ""
  {
    ValidMeans(stack, isAlloc, fileOf);
    var i := |stack| - 1;
    var objfile := "";
    assert i >= 0 ==> stack[..i + 1] == stack;
    while i > 0
      invariant -1 <= i < |stack| && objfile == ""
      invariant Origin(stack, fileOf) == if i < 0 then "" else Origin(stack[..i + 1], fileOf)
    {
      assert stack[..i + 1][..i] == stack[..i];
      objfile := fileOf(stack[i]);
      if objfile != "" {
        // only the originating object file matters
        break;
      }
      i := i - 1;
    }
    ok := true;
    if objfile != "" {
      if !isAlloc && objfile == LIBOBJC {
        ok := false;
      }
    }
  }

  // ---- the printed list ----

  /** Largest first, all groups of at least minleak bytes. */
  function Listed(sorted: seq<Group>, minleak: nat): seq<Group>
    decreases |sorted|
  {
    if sorted == [] then []
    else
      var n := |sorted| - 1;
      (if minleak <= sorted[n].size then [sorted[n]] else [])
      + Listed(sorted[..n], minleak)
  }

  lemma {:induction false} NothingListedBelow(sorted: seq<Group>, minleak: nat)
    requires forall j :: 0 <= j < |sorted| ==> sorted[j].size < minleak
    ensures Listed(sorted, minleak) == []
    decreases |sorted|
  {
    if sorted != [] {
      NothingListedBelow(sorted[..|sorted| - 1], minleak);
    }
  }

  /**
   * The printing loop stops at the first group below minleak; that is the same as filtering. The test
   * of the callstack keeps nothing back, since the group comes from allocations.
   */
  method PrintLeaks(sorted: seq<Group>, minleak: nat, fileOf: Addr -> string) returns (printed: seq<Group>)
    requires Ascending(sorted)
    ensures printed == Listed(sorted, minleak)
  {
    printed := [];
    var k := |sorted|;
    assert sorted[..k] == sorted;
    assert Ascending(sorted);
    hide Listed;
    while 0 < k && minleak <= sorted[k - 1].size
      invariant 0 <= k <= |sorted|
      invariant printed + Listed(sorted[..k], minleak) == Listed(sorted, minleak)
    {
      ListedStep(sorted, k, minleak);
      ghost var before, rest := printed, Listed(sorted[..k - 1], minleak);
      var ok := IsValidCallstack(sorted[k - 1].callstack, true, fileOf);
      if ok {
        printed := printed + [sorted[k - 1]];
        assert printed + rest == before + ([sorted[k - 1]] + rest);
      }
      k := k - 1;
    }
    NothingListedBelow(sorted[..k], minleak);
  }

  lemma ListedStep(sorted: seq<Group>, k: nat, minleak: nat)
    requires 0 < k <= |sorted| && minleak <= sorted[k - 1].size
    ensures Listed(sorted[..k], minleak)
            == [sorted[k - 1]] + Listed(sorted[..k - 1], minleak)
  {
    assert sorted[..k][..k - 1] == sorted[..k - 1];
  }

  ghost predicate Descending(s: seq<Group>) {
    forall i, j :: 0 <= i < j < |s| ==> s[j].size <= s[i].size
  }

  lemma {:induction false} ListedIsFilter(sorted: seq<Group>, minleak: nat, g: Group)
    ensures g in Listed(sorted, minleak) <==> g in sorted && minleak <= g.size
    decreases |sorted|
  {
    if sorted != [] {
      var n := |sorted| - 1;
      ListedIsFilter(sorted[..n], minleak, g);
      assert sorted == sorted[..n] + [sorted[n]];
    }
  }

  /** The printed sizes never increase, and no group that reaches minleak is missing. */
  lemma {:induction false} ListedDescends(sorted: seq<Group>, minleak: nat)
    requires Ascending(sorted)
    ensures Descending(Listed(sorted, minleak))
    ensures forall g :: g in Listed(sorted, minleak) <==> g in sorted && minleak <= g.size
    decreases |sorted|
  {
    forall g
      ensures g in Listed(sorted, minleak) <==> g in sorted && minleak <= g.size
    {
      ListedIsFilter(sorted, minleak, g);
    }
    if sorted != [] {
      var n := |sorted| - 1;
      var rest := Listed(sorted[..n], minleak);
      ListedDescends(sorted[..n], minleak);
      forall j | 0 <= j < |rest|
        ensures rest[j].size <= sorted[n].size
      {
        assert rest[j] in sorted[..n];
      }
    }
  }

  lemma {:induction false} AllListed(sorted: seq<Group>, minleak: nat)
    requires forall j :: 0 <= j < |sorted| ==> minleak <= sorted[j].size
    ensures SeqBytes(Listed(sorted, minleak)) == SeqBytes(sorted)
    ensures SeqBlocks(Listed(sorted, minleak)) == SeqBlocks(sorted)
    decreases |sorted|
  {
    if sorted != [] {
      var n := |sorted| - 1;
      AllListed(sorted[..n], minleak);
      assert sorted == sorted[..n] + [sorted[n]];
      SeqSums(sorted[..n], [sorted[n]]);
      SeqSums([sorted[n]], Listed(sorted[..n], minleak));
    }
  }

  lemma {:induction false} SizeSumSubset(m: map<Addr, Entry>, n: map<Addr, Entry>)
    requires forall p :: p in m ==> p in n && m[p] == n[p]
    ensures SizeSum(m) <= SizeSum(n)
    decreases |m|
  {
    if m != map[] {
      var p :| p in m;
      SizeSumRemove(m, p);
      SizeSumRemove(n, p);
      SizeSumSubset(m - {p}, n - {p});
    }
  }

  /** Since log_event admits only blocks of at least minsize, no group falls below the cutoff. */
  lemma GroupsAboveCutoff(cfg: Config, l: Log, groups: map<Stack, Group>, cs: Stack)
    requires Tidy(cfg, l) && Grouped(groups, l.live) && SizeSum(l.live) < WORD && cs in groups
    ensures cfg.minsize <= groups[cs].size
  {
    var own := With(l.live, cs);
    SizeSumSubset(own, l.live);
    assert GroupMatches(groups, l.live, cs);
    assert own != map[];
    var p :| p in own;
    SizeSumRemove(own, p);
  }

  /**
   * The printed details are complete: with fewer than 2^64 live bytes they add up, in bytes and blocks,
   * to the "definitely lost" line.
   */
  lemma PrintedDetailsAddUp(cfg: Config, l: Log, groups: map<Stack, Group>, sorted: seq<Group>,
                            leakBytes: nat, leakBlocks: nat)
    requires Tidy(cfg, l) && SizeSum(l.live) < WORD
    requires Grouped(groups, l.live) && AddsUp(groups, leakBytes, leakBlocks) && GroupBytes(groups) <= SizeSum(l.live)
    requires Lists(sorted, groups) && SeqBytes(sorted) == GroupBytes(groups) && SeqBlocks(sorted) == GroupBlocks(groups)
    ensures SeqBytes(Listed(sorted, cfg.minsize)) == leakBytes
    ensures SeqBlocks(Listed(sorted, cfg.minsize)) == leakBlocks
  {
    forall j | 0 <= j < |sorted|
      ensures cfg.minsize <= sorted[j].size
    {
      var g := sorted[j];
      assert multiset(sorted)[g] > 0;
      GroupsAboveCutoff(cfg, l, groups, g.callstack);
    }
    hide Grouped, Lists, Tidy, SeqBytes, SeqBlocks, GroupBytes, GroupBlocks, SizeSum;
    AllListed(sorted, cfg.minsize);
    SmallRemainder(GroupBytes(groups));
  }
}
