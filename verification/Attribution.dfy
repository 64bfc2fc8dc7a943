/**
 * Attributing a faulting address to a block: the search in hu_sig_handler (src/hulog.cpp), and exactly
 * when its answer does not depend on the iteration orders of the two hash maps.
 */
module Attribution {
  import opened Machine
  import opened LogModel
  import opened Summary

  datatype Finding =
    | NotFound
    | AfterLive(ptr: Addr, offset: nat)
    | AfterFreed(ptr: Addr, offset: nat)
    | InsideFreed(ptr: Addr, offset: nat)

  function EndOf(e: Entry): Addr { Add64(e.ptr, e.size) }

  /** The faulting address is at most one page behind the block; pointers wrap. */
  predicate JustAfter(page: nat, e: Entry, a: Addr) {
    EndOf(e) <= a <= Add64(EndOf(e), page)
  }

  predicate InsideOrAfter(page: nat, e: Entry, a: Addr) {
    e.ptr <= a <= Add64(EndOf(e), page)
  }

  function MatchLive(page: nat, e: Entry, a: Addr): Finding {
    if JustAfter(page, e, a) then AfterLive(e.ptr, a - EndOf(e)) else NotFound
  }

  function MatchFreed(page: nat, e: Entry, a: Addr): Finding {
    if JustAfter(page, e, a) then AfterFreed(e.ptr, a - EndOf(e))
    else if InsideOrAfter(page, e, a) then InsideFreed(e.ptr, a - e.ptr)
    else NotFound
  }

  /** The first live match in the given iteration order. */
  function FirstLive(page: nat, m: map<Addr, Entry>, order: seq<Addr>, a: Addr): Finding
    requires forall p :: p in order ==> p in m
  {
    if order == [] then NotFound
    else if MatchLive(page, m[order[0]], a) != NotFound then MatchLive(page, m[order[0]], a)
    else FirstLive(page, m, order[1..], a)
  }

  function FirstFreed(page: nat, m: map<Addr, Entry>, order: seq<Addr>, a: Addr): Finding
    requires forall p :: p in order ==> p in m
  {
    if order == [] then NotFound
    else if MatchFreed(page, m[order[0]], a) != NotFound then MatchFreed(page, m[order[0]], a)
    else FirstFreed(page, m, order[1..], a)
  }

  /** Live blocks first, freed blocks only when no live one matches. */
  function Search(page: nat, l: Log, liveOrder: seq<Addr>, freedOrder: seq<Addr>, a: Addr): Finding
    requires (forall p :: p in liveOrder ==> p in l.live) && (forall p :: p in freedOrder ==> p in l.freed)
  {
    var found := FirstLive(page, l.live, liveOrder, a);
    if found != NotFound then found else FirstFreed(page, l.freed, freedOrder, a)
  }

  /** When at most the entry of p can match, the iteration order is irrelevant. */
  lemma {:induction false} OnlyLiveMatch(page: nat, m: map<Addr, Entry>, order: seq<Addr>, a: Addr, p: Addr)
    requires forall q :: q in order ==> q in m && (q != p ==> MatchLive(page, m[q], a) == NotFound)
    ensures FirstLive(page, m, order, a) == if p in order then MatchLive(page, m[p], a) else NotFound
  {
    if order != [] {
      assert order == [order[0]] + order[1..];
      OnlyLiveMatch(page, m, order[1..], a, p);
    }
  }

  lemma {:induction false} OnlyFreedMatch(page: nat, m: map<Addr, Entry>, order: seq<Addr>, a: Addr, p: Addr)
    requires forall q :: q in order ==> q in m && (q != p ==> MatchFreed(page, m[q], a) == NotFound)
    ensures FirstFreed(page, m, order, a) == if p in order then MatchFreed(page, m[p], a) else NotFound
  {
    if order != [] {
      assert order == [order[0]] + order[1..];
      OnlyFreedMatch(page, m, order[1..], a, p);
    }
  }

  // ---- iteration orders ----

  lemma Prepend<K(!new), V>(m: map<K, V>, k: K, rest: seq<K>)
    requires k in m && Enumerates(rest, m - {k})
    ensures Enumerates([k] + rest, m)
  {
    var order := [k] + rest;
    forall x
      ensures x in m <==> x in order
    {
      assert x in order <==> x == k || x in rest;
    }
    forall i, j | 0 <= i < j < |order|
      ensures order[i] != order[j]
    {
      assert order[j] == rest[j - 1] && rest[j - 1] in rest;
    }
  }

  lemma {:induction false} SomeOrder<K(!new), V>(m: map<K, V>) returns (order: seq<K>)
    ensures Enumerates(order, m)
    decreases |m|
  {
    order := [];
    if m != map[] {
      var k :| k in m;
      var rest := SomeOrder(m - {k});
      Prepend(m, k, rest);
      order := [k] + rest;
    }
  }

  /** Every key is the first of some order. */
  lemma StartsWith<K(!new), V>(m: map<K, V>, k: K) returns (order: seq<K>)
    requires k in m
    ensures Enumerates(order, m) && order != [] && order[0] == k
  {
    var rest := SomeOrder(m - {k});
    Prepend(m, k, rest);
    order := [k] + rest;
  }

  /** The search gives this answer whatever order the maps are walked in. */
  ghost predicate AlwaysFinds(page: nat, l: Log, a: Addr, f: Finding) {
    forall liveOrder: seq<Addr>, freedOrder: seq<Addr> ::
      Enumerates(liveOrder, l.live) && Enumerates(freedOrder, l.freed) ==>
      Search(page, l, liveOrder, freedOrder, a) == f
  }

  /** Entries sit under their own pointer. */
  ghost predicate Keyed(l: Log) {
    && (forall p :: p in l.live ==> l.live[p].ptr == p)
    && (forall p :: p in l.freed ==> l.freed[p].ptr == p)
  }

  predicate LiveHit(page: nat, l: Log, q: Addr, a: Addr) {
    q in l.live && JustAfter(page, l.live[q], a)
  }

  predicate FreedHit(page: nat, l: Log, q: Addr, a: Addr) {
    q in l.freed && (JustAfter(page, l.freed[q], a) || InsideOrAfter(page, l.freed[q], a))
  }

  /** Any live entry that matches is the answer for some order. */
  lemma LiveHitCanWin(page: nat, l: Log, q: Addr, a: Addr) returns (liveOrder: seq<Addr>, freedOrder: seq<Addr>)
    requires LiveHit(page, l, q, a)
    ensures Enumerates(liveOrder, l.live) && Enumerates(freedOrder, l.freed)
    ensures Search(page, l, liveOrder, freedOrder, a) == MatchLive(page, l.live[q], a)
  {
    liveOrder := StartsWith(l.live, q);
    freedOrder := SomeOrder(l.freed);
  }

  /** When no live entry matches, so is any freed one that does. */
  lemma FreedHitCanWin(page: nat, l: Log, q: Addr, a: Addr) returns (liveOrder: seq<Addr>, freedOrder: seq<Addr>)
    requires FreedHit(page, l, q, a) && forall r :: !LiveHit(page, l, r, a)
    ensures Enumerates(liveOrder, l.live) && Enumerates(freedOrder, l.freed)
    ensures Search(page, l, liveOrder, freedOrder, a) == MatchFreed(page, l.freed[q], a)
  {
    liveOrder := SomeOrder(l.live);
    freedOrder := StartsWith(l.freed, q);
    assert forall r :: r in liveOrder ==> !LiveHit(page, l, r, a);
    OnlyLiveMatch(page, l.live, liveOrder, a, NULL);
  }

  /** A live entry that matches is found in every order exactly when no other live entry matches. */
  lemma LiveAnswerExact(page: nat, l: Log, p: Addr, a: Addr)
    requires Keyed(l) && LiveHit(page, l, p, a)
    ensures AlwaysFinds(page, l, a, MatchLive(page, l.live[p], a))
            <==> forall q :: q != p ==> !LiveHit(page, l, q, a)
  {
    hide JustAfter;
    if q :| q != p && LiveHit(page, l, q, a) {
      var liveOrder, freedOrder := LiveHitCanWin(page, l, q, a);
    } else {
      forall liveOrder: seq<Addr>, freedOrder: seq<Addr>
        | Enumerates(liveOrder, l.live) && Enumerates(freedOrder, l.freed)
        ensures Search(page, l, liveOrder, freedOrder, a) == MatchLive(page, l.live[p], a)
      {
        assert forall q :: q in liveOrder && q != p ==> !LiveHit(page, l, q, a);
        OnlyLiveMatch(page, l.live, liveOrder, a, p);
      }
    }
  }

  /**
   * An answer about the freed pointer p, or none, is given in every order exactly when it is the match
   * of its entry and no live entry and no other freed entry matches.
   */
  lemma FreedAnswerExact(page: nat, l: Log, p: Addr, a: Addr, f: Finding)
    requires Keyed(l) && p in l.freed && (f == NotFound || (!f.AfterLive? && f.ptr == p))
    ensures AlwaysFinds(page, l, a, f)
            <==> MatchFreed(page, l.freed[p], a) == f
                 && (forall q :: !LiveHit(page, l, q, a)) && (forall q :: q != p ==> !FreedHit(page, l, q, a))
  {
    hide JustAfter, InsideOrAfter;
    if q :| LiveHit(page, l, q, a) {
      var liveOrder, freedOrder := LiveHitCanWin(page, l, q, a);
    } else if q :| q != p && FreedHit(page, l, q, a) {
      var liveOrder, freedOrder := FreedHitCanWin(page, l, q, a);
    } else {
      OnlyFreedAnswer(page, l, p, a);
      var liveOrder := SomeOrder(l.live);
      var freedOrder := SomeOrder(l.freed);
      assert Search(page, l, liveOrder, freedOrder, a) == MatchFreed(page, l.freed[p], a);
    }
  }

  lemma OnlyFreedAnswer(page: nat, l: Log, p: Addr, a: Addr)
    requires p in l.freed && (forall q :: !LiveHit(page, l, q, a)) && (forall q :: q != p ==> !FreedHit(page, l, q, a))
    ensures AlwaysFinds(page, l, a, MatchFreed(page, l.freed[p], a))
  {
    hide JustAfter, InsideOrAfter;
    forall liveOrder: seq<Addr>, freedOrder: seq<Addr>
        | Enumerates(liveOrder, l.live) && Enumerates(freedOrder, l.freed)
      ensures Search(page, l, liveOrder, freedOrder, a) == MatchFreed(page, l.freed[p], a)
    {
      assert forall q :: q in liveOrder ==> !LiveHit(page, l, q, a);
      assert forall q :: q in freedOrder && q != p ==> !FreedHit(page, l, q, a);
      OnlyLiveMatch(page, l.live, liveOrder, a, NULL);
      OnlyFreedMatch(page, l.freed, freedOrder, a, p);
    }
  }

  /** Nothing is ever found exactly when nothing matches. */
  lemma NoAnswerExact(page: nat, l: Log, a: Addr)
    ensures AlwaysFinds(page, l, a, NotFound)
            <==> forall q :: !LiveHit(page, l, q, a) && !FreedHit(page, l, q, a)
  {
    hide JustAfter, InsideOrAfter;
    if q :| LiveHit(page, l, q, a) {
      var liveOrder, freedOrder := LiveHitCanWin(page, l, q, a);
    } else if q :| FreedHit(page, l, q, a) {
      var liveOrder, freedOrder := FreedHitCanWin(page, l, q, a);
    } else {
      forall liveOrder: seq<Addr>, freedOrder: seq<Addr>
        | Enumerates(liveOrder, l.live) && Enumerates(freedOrder, l.freed)
        ensures Search(page, l, liveOrder, freedOrder, a) == NotFound
      {
        assert forall q :: q in liveOrder ==> !LiveHit(page, l, q, a);
        assert forall q :: q in freedOrder ==> !FreedHit(page, l, q, a);
        OnlyLiveMatch(page, l.live, liveOrder, a, NULL);
        OnlyFreedMatch(page, l.freed, freedOrder, a, NULL);
      }
    }
  }

  // ---- naming a block ----

  predicate NamesLive(f: Finding, p: Addr) { f.AfterLive? && f.ptr == p }

  predicate NamesFreed(f: Finding, p: Addr) { (f.AfterFreed? || f.InsideFreed?) && f.ptr == p }

  /** Whatever order the maps are walked in, the search names the live block p. */
  ghost predicate AlwaysNamesLive(page: nat, l: Log, a: Addr, p: Addr) {
    forall liveOrder: seq<Addr>, freedOrder: seq<Addr> ::
      Enumerates(liveOrder, l.live) && Enumerates(freedOrder, l.freed) ==>
      NamesLive(Search(page, l, liveOrder, freedOrder, a), p)
  }

  ghost predicate AlwaysNamesFreed(page: nat, l: Log, a: Addr, p: Addr) {
    forall liveOrder: seq<Addr>, freedOrder: seq<Addr> ::
      Enumerates(liveOrder, l.live) && Enumerates(freedOrder, l.freed) ==>
      NamesFreed(Search(page, l, liveOrder, freedOrder, a), p)
  }

  /** No live entry matches the address, and no freed one but possibly that of p. */
  ghost predicate NothingElseHits(page: nat, l: Log, p: Addr, a: Addr) {
    (forall q :: !LiveHit(page, l, q, a)) && (forall q :: q != p ==> !FreedHit(page, l, q, a))
  }

  lemma {:induction false} FreedNeverLive(page: nat, m: map<Addr, Entry>, order: seq<Addr>, a: Addr)
    requires forall q :: q in order ==> q in m
    ensures !FirstFreed(page, m, order, a).AfterLive?
  {
    if order != [] {
      FreedNeverLive(page, m, order[1..], a);
    }
  }

  /** A live block is named in every order exactly when its entry matches and no other live entry does. */
  lemma LiveNamedExact(page: nat, l: Log, p: Addr, a: Addr)
    requires Keyed(l) && p in l.live
    ensures AlwaysNamesLive(page, l, a, p)
            <==> LiveHit(page, l, p, a) && forall q :: q != p ==> !LiveHit(page, l, q, a)
  {
    hide JustAfter, InsideOrAfter;
    if q :| q != p && LiveHit(page, l, q, a) {
      var liveOrder, freedOrder := LiveHitCanWin(page, l, q, a);
    } else if LiveHit(page, l, p, a) {
      LiveAnswerExact(page, l, p, a);
      assert forall liveOrder: seq<Addr>, freedOrder: seq<Addr> ::
          Enumerates(liveOrder, l.live) && Enumerates(freedOrder, l.freed) ==>
          Search(page, l, liveOrder, freedOrder, a) == MatchLive(page, l.live[p], a);
    } else {
      var liveOrder := SomeOrder(l.live);
      var freedOrder := SomeOrder(l.freed);
      assert forall q :: q in liveOrder ==> !LiveHit(page, l, q, a);
      OnlyLiveMatch(page, l.live, liveOrder, a, p);
      FreedNeverLive(page, l.freed, freedOrder, a);
      assert !NamesLive(Search(page, l, liveOrder, freedOrder, a), p);
    }
  }

  /** A freed block is named in every order exactly when its entry matches and nothing else does. */
  lemma FreedNamedExact(page: nat, l: Log, p: Addr, a: Addr)
    requires Keyed(l) && p in l.freed
    ensures AlwaysNamesFreed(page, l, a, p) <==> FreedHit(page, l, p, a) && NothingElseHits(page, l, p, a)
  {
    hide JustAfter, InsideOrAfter;
    if q :| LiveHit(page, l, q, a) {
      var liveOrder, freedOrder := LiveHitCanWin(page, l, q, a);
    } else if q :| q != p && FreedHit(page, l, q, a) {
      var liveOrder, freedOrder := FreedHitCanWin(page, l, q, a);
    } else {
      OnlyFreedAnswer(page, l, p, a);
      var liveOrder := SomeOrder(l.live);
      var freedOrder := SomeOrder(l.freed);
      assert Search(page, l, liveOrder, freedOrder, a) == MatchFreed(page, l.freed[p], a);
      assert forall liveOrder: seq<Addr>, freedOrder: seq<Addr> ::
          Enumerates(liveOrder, l.live) && Enumerates(freedOrder, l.freed) ==>
          Search(page, l, liveOrder, freedOrder, a) == MatchFreed(page, l.freed[p], a);
    }
  }
}
